/**
 * Language negotiation, the router's preconditions and the ordering of results
 * (Sources/App/Application+Router.swift).
 *
 * `negotiateLanguage` reads the Accept-Language header of section 12.5.4 of
 * RFC 9110 in a simplified way: comma-separated language tags, each optionally
 * followed by `;q=` and a quality value (section 12.4.2 of RFC 9110). The
 * parsing of a quality as a `Double` is an input (`parseQuality`); a missing
 * or unparsable quality counts as 1.0.
 */
module Router {
  import opened Wrappers
  import opened Text
  import opened Languages
  import Solver
  import Sorting

  /** One element of the header: a language tag and its quality. */
  datatype LanguageRange = LanguageRange(tag: string, quality: real)

  /** The quality after `;q=`, when there is one and it parses; 1.0 otherwise. */
  function QualityOf(parseQuality: string -> Option<real>, parts: seq<string>): (q: real)
    ensures (|parts| <= 1 || parseQuality(parts[1]).None?) ==> q == 1.0
    ensures |parts| > 1 && parseQuality(parts[1]).Some? ==> q == parseQuality(parts[1]).value
  {
    if |parts| > 1 then
      match parseQuality(parts[1])
      case Some(q) => q
      case None => 1.0
    else 1.0
  }

  /** The `compactMap` closure: trims the element, splits off `;q=`, and trims the tag. */
  function ParseRange(blank: char -> bool, parseQuality: string -> Option<real>, component: string): (r: LanguageRange)
    ensures r.tag == [] || (!blank(r.tag[0]) && !blank(r.tag[|r.tag| - 1]))
  {
    var parts := Split(Trim(blank, component), ";q=");
    LanguageRange(Trim(blank, parts[0]), QualityOf(parseQuality, parts))
  }

  /** What occurs in an infix of `s` occurs in `s`. */
  lemma InfixOccurrence(s: string, i: int, r: string, sub: string)
    requires 0 <= i <= |s| - |r| && r == s[i..i + |r|]
    ensures Contains(r, sub) ==> Contains(s, sub)
  {
    if Contains(r, sub) {
      var j :| 0 <= j <= |r| - |sub| && OccursAt(r, sub, j);
      forall k | 0 <= k < |sub| ensures s[i + j..i + j + |sub|][k] == sub[k] {
        assert r[j..j + |sub|][k] == r[j + k] == s[i + j + k];
      }
      assert s[i + j..i + j + |sub|] == sub;
      assert OccursAt(s, sub, i + j);
    }
  }

  /** An element without `;q=` is its trimmed self, with quality 1.0. */
  lemma RangeWithoutQuality(blank: char -> bool, parseQuality: string -> Option<real>, component: string)
    requires !Contains(component, ";q=")
    ensures ParseRange(blank, parseQuality, component) == LanguageRange(Trim(blank, component), 1.0)
  {
    var trimmed := Trim(blank, component);
    var i :| TrimmedAt(blank, component, trimmed, i);
    InfixOccurrence(component, i, trimmed, ";q=");
    SplitWithoutSeparator(trimmed, ";q=");
    TrimIdempotent(blank, component);
  }

  /**
   * An element whose trimmed form is a tag without `;`, then `;q=`, then a
   * quality: the tag, trimmed, with the parsed quality, or 1.0 when it does
   * not parse ("en;q=0.9" is the tag "en" with the quality 0.9 parses to).
   */
  lemma RangeWithQuality(blank: char -> bool, parseQuality: string -> Option<real>, component: string,
                         tag: string, quality: string)
    requires ';' !in tag && !Contains(quality, ";q=")
    requires Trim(blank, component) == tag + ";q=" + quality
    ensures ParseRange(blank, parseQuality, component) ==
      LanguageRange(Trim(blank, tag), if parseQuality(quality).Some? then parseQuality(quality).value else 1.0)
  {
    SplitAtFirst(tag, ";q=", quality);
    SplitWithoutSeparator(quality, ";q=");
    var parts := Split(tag + ";q=" + quality, ";q=");
    assert parts == [tag, quality];
  }

  /** A quality that does not parse counts as 1.0. */
  lemma UnparsableQualityIsOne(blank: char -> bool, parseQuality: string -> Option<real>, component: string)
    requires var parts := Split(Trim(blank, component), ";q=");
             |parts| > 1 && parseQuality(parts[1]).None?
    ensures ParseRange(blank, parseQuality, component).quality == 1.0
  {
  }

  /** The `compactMap` over the elements, in order. */
  function ParseRanges(blank: char -> bool, parseQuality: string -> Option<real>, components: seq<string>): (r: seq<LanguageRange>)
    ensures |r| == |components|
    ensures forall i :: 0 <= i < |r| ==> r[i] == ParseRange(blank, parseQuality, components[i])
  {
    if components == [] then []
    else [ParseRange(blank, parseQuality, components[0])] + ParseRanges(blank, parseQuality, components[1..])
  }

  /** `components(separatedBy: ",")` followed by `compactMap`: one range per comma-separated element. */
  function ParseAcceptLanguage(blank: char -> bool, parseQuality: string -> Option<real>, header: string): (r: seq<LanguageRange>)
    ensures |r| == |Split(header, ",")| >= 1
    ensures forall i :: 0 <= i < |r| ==> r[i] == ParseRange(blank, parseQuality, Split(header, ",")[i])
  {
    ParseRanges(blank, parseQuality, Split(header, ","))
  }

  ghost predicate QualityDescending(s: seq<LanguageRange>) {
    forall i, j :: 0 <= i < j < |s| ==> s[i].quality >= s[j].quality
  }

  /** A range of at least the quality of a descending list's head may go in front of it. */
  lemma ConsDescending(h: LanguageRange, rest: seq<LanguageRange>)
    requires QualityDescending(rest)
    requires rest == [] || rest[0].quality <= h.quality
    ensures QualityDescending([h] + rest)
  {
    var r := [h] + rest;
    forall i, j | 0 <= i < j < |r| ensures r[i].quality >= r[j].quality {
      assert r[j] == rest[j - 1];
      if i > 0 { assert r[i] == rest[i - 1]; }
      else if j > 1 { assert rest[0].quality >= rest[j - 1].quality; }
    }
  }

  /** Places `x` before the first element whose quality is not greater than its own. */
  function InsertByQuality(x: LanguageRange, sorted: seq<LanguageRange>): (r: seq<LanguageRange>)
    requires QualityDescending(sorted)
    ensures QualityDescending(r)
    ensures r != [] && (r[0] == x || (sorted != [] && r[0] == sorted[0]))
  {
    if sorted == [] then [x]
    else if sorted[0].quality > x.quality then
      var rest := InsertByQuality(x, sorted[1..]);
      assert sorted[1..] == [] || sorted[1..][0] == sorted[1];
      ConsDescending(sorted[0], rest);
      [sorted[0]] + rest
    else
      ConsDescending(x, sorted);
      [x] + sorted
  }

  /** Inserting adds exactly the one range and loses none. */
  lemma {:induction false} InsertByQualityAddsOne(x: LanguageRange, sorted: seq<LanguageRange>)
    requires QualityDescending(sorted)
    ensures multiset(InsertByQuality(x, sorted)) == multiset(sorted) + multiset{x}
  {
    if sorted != [] && sorted[0].quality > x.quality {
      InsertByQualityAddsOne(x, sorted[1..]);
      assert sorted == [sorted[0]] + sorted[1..];
    }
  }

  /**
   * `sorted { $0.1 > $1.1 }`: the ranges by descending quality. The library
   * does not promise how ties are ordered; nothing below depends on it.
   */
  function SortByQuality(ranges: seq<LanguageRange>): (r: seq<LanguageRange>)
    ensures QualityDescending(r)
    ensures multiset(r) == multiset(ranges)
  {
    if ranges == [] then []
    else
      assert ranges == [ranges[0]] + ranges[1..];
      InsertByQualityAddsOne(ranges[0], SortByQuality(ranges[1..]));
      InsertByQuality(ranges[0], SortByQuality(ranges[1..]))
  }

  /** Sorting by quality keeps exactly the same ranges. */
  lemma SortByQualitySameRanges(ranges: seq<LanguageRange>)
    ensures forall rg :: rg in SortByQuality(ranges) <==> rg in ranges
  {
    var sorted := SortByQuality(ranges);
    forall rg ensures rg in sorted <==> rg in ranges {
      assert rg in ranges <==> rg in multiset(ranges);
      assert rg in sorted <==> rg in multiset(sorted);
    }
  }

  /** The position of the first element that `p` accepts, or the length when there is none. */
  function FirstIndex<T>(s: seq<T>, p: T -> bool): (k: nat)
    ensures k <= |s|
    ensures forall j :: 0 <= j < k ==> !p(s[j])
    ensures k < |s| ==> p(s[k])
  {
    if s == [] || p(s[0]) then 0 else 1 + FirstIndex(s[1..], p)
  }

  /** If `p` accepts some element, the search stops inside the sequence. */
  lemma FirstIndexFinds<T>(s: seq<T>, p: T -> bool, x: T)
    requires x in s && p(x)
    ensures FirstIndex(s, p) < |s|
  {
    var m :| 0 <= m < |s| && s[m] == x;
  }

  function Identifiers(langs: seq<SupportedLanguage>): set<string> {
    set i | 0 <= i < |langs| :: langs[i].identifier
  }

  function LanguageCodes(langs: seq<SupportedLanguage>): set<string> {
    set i | 0 <= i < |langs| :: langs[i].languageCode
  }

  function HasIdentifier(tag: string): SupportedLanguage -> bool {
    (l: SupportedLanguage) => l.identifier == tag
  }

  function HasLanguageCode(code: string): SupportedLanguage -> bool {
    (l: SupportedLanguage) => l.languageCode == code
  }

  /** `supportedLanguages.first { $0.identifier == tag }!`: the force-unwrap cannot fail. */
  function FirstWithIdentifier(langs: seq<SupportedLanguage>, tag: string): (r: SupportedLanguage)
    requires tag in Identifiers(langs)
    ensures r in langs && r.identifier == tag
  {
    var i :| 0 <= i < |langs| && langs[i].identifier == tag;
    FirstIndexFinds(langs, HasIdentifier(tag), langs[i]);
    langs[FirstIndex(langs, HasIdentifier(tag))]
  }

  /** The language found is the earliest in the list with that identifier. */
  lemma FirstWithIdentifierIsFirst(langs: seq<SupportedLanguage>, tag: string, i: int)
    requires 0 <= i < |langs| && langs[i].identifier == tag
    requires forall j :: 0 <= j < i ==> langs[j].identifier != tag
    ensures FirstWithIdentifier(langs, tag) == langs[i]
  {
    assert HasIdentifier(tag)(langs[i]);
  }

  /** `supportedLanguages.first { $0.languageCode == code }!`: the force-unwrap cannot fail. */
  function FirstWithLanguageCode(langs: seq<SupportedLanguage>, code: string): (r: SupportedLanguage)
    requires code in LanguageCodes(langs)
    ensures r in langs && r.languageCode == code
  {
    var i :| 0 <= i < |langs| && langs[i].languageCode == code;
    FirstIndexFinds(langs, HasLanguageCode(code), langs[i]);
    langs[FirstIndex(langs, HasLanguageCode(code))]
  }

  /** The language found is the earliest in the list with that language code. */
  lemma FirstWithLanguageCodeIsFirst(langs: seq<SupportedLanguage>, code: string, i: int)
    requires 0 <= i < |langs| && langs[i].languageCode == code
    requires forall j :: 0 <= j < i ==> langs[j].languageCode != code
    ensures FirstWithLanguageCode(langs, code) == langs[i]
  {
    assert HasLanguageCode(code)(langs[i]);
  }

  /** A range the first pass accepts: its tag is a supported identifier. */
  function ExactHit(langs: seq<SupportedLanguage>): LanguageRange -> bool {
    (rg: LanguageRange) => rg.tag in Identifiers(langs)
  }

  /** A range the second pass accepts: its primary subtag is a supported language code. */
  function PrimaryHit(langs: seq<SupportedLanguage>): LanguageRange -> bool {
    (rg: LanguageRange) => PrimarySubtag(rg.tag) in LanguageCodes(langs)
  }

  /** The first pass: the first range, in the given order, whose tag is a supported identifier. */
  function ExactPass(ranges: seq<LanguageRange>, langs: seq<SupportedLanguage>): (r: Option<SupportedLanguage>)
    ensures r.None? <==> forall rg :: rg in ranges ==> rg.tag !in Identifiers(langs)
    ensures r.Some? ==> r.value in langs
    ensures r.Some? ==>
      exists i :: 0 <= i < |ranges| && ranges[i].tag == r.value.identifier &&
        forall j :: 0 <= j < i ==> ranges[j].tag !in Identifiers(langs)
  {
    var k := FirstIndex(ranges, ExactHit(langs));
    if k < |ranges| then
      assert ExactHit(langs)(ranges[k]);
      Some(FirstWithIdentifier(langs, ranges[k].tag))
    else
      assert forall rg :: rg in ranges ==> !ExactHit(langs)(rg);
      None
  }

  /** The second pass: the first range, in the given order, whose primary subtag is a supported language code. */
  function PrimaryPass(ranges: seq<LanguageRange>, langs: seq<SupportedLanguage>): (r: Option<SupportedLanguage>)
    ensures r.None? <==> forall rg :: rg in ranges ==> PrimarySubtag(rg.tag) !in LanguageCodes(langs)
    ensures r.Some? ==> r.value in langs
    ensures r.Some? ==>
      exists i :: 0 <= i < |ranges| && PrimarySubtag(ranges[i].tag) == r.value.languageCode &&
        forall j :: 0 <= j < i ==> PrimarySubtag(ranges[j].tag) !in LanguageCodes(langs)
  {
    var k := FirstIndex(ranges, PrimaryHit(langs));
    if k < |ranges| then
      assert PrimaryHit(langs)(ranges[k]);
      Some(FirstWithLanguageCode(langs, PrimarySubtag(ranges[k].tag)))
    else
      assert forall rg :: rg in ranges ==> !PrimaryHit(langs)(rg);
      None
  }

  /**
   * The choice made from the parsed ranges: sort them by descending quality,
   * then an exact pass, then a primary-language pass, then the first
   * supported language.
   */
  function NegotiateRanges(ranges: seq<LanguageRange>, supported: seq<SupportedLanguage>): (r: SupportedLanguage)
    requires |supported| > 0
    ensures r in supported
  {
    var sorted := SortByQuality(ranges);
    match ExactPass(sorted, supported)
    case Some(language) => language
    case None =>
      match PrimaryPass(sorted, supported)
      case Some(language) => language
      case None => supported[0]
  }

  /** `negotiateLanguage(from:supportedLanguages:)`: always one of the supported languages. */
  function NegotiateLanguage(blank: char -> bool, parseQuality: string -> Option<real>,
                             acceptLanguage: string, supported: seq<SupportedLanguage>): (r: SupportedLanguage)
    requires |supported| > 0
    ensures r in supported
  {
    NegotiateRanges(ParseAcceptLanguage(blank, parseQuality, acceptLanguage), supported)
  }

  /** The first range a pass accepts in the sorted order has the highest quality of all it accepts. */
  lemma FirstHitHasTopQuality(sorted: seq<LanguageRange>, hit: LanguageRange -> bool)
    requires QualityDescending(sorted)
    requires FirstIndex(sorted, hit) < |sorted|
    ensures forall o :: o in sorted && hit(o) ==> o.quality <= sorted[FirstIndex(sorted, hit)].quality
  {
    var k := FirstIndex(sorted, hit);
    forall o | o in sorted && hit(o) ensures o.quality <= sorted[k].quality {
      var m :| 0 <= m < |sorted| && sorted[m] == o;
      assert m >= k;
    }
  }

  /**
   * When some range names a supported identifier exactly, the result is the
   * first supported language with such an identifier, named by a range of the
   * highest quality among the exact ones; primary-language matches play no
   * part, whatever their qualities.
   */
  lemma ExactMatchWins(ranges: seq<LanguageRange>, supported: seq<SupportedLanguage>)
    requires |supported| > 0
    requires exists rg :: rg in ranges && rg.tag in Identifiers(supported)
    ensures var r := NegotiateRanges(ranges, supported);
            && r == FirstWithIdentifier(supported, r.identifier)
            && exists rg :: rg in ranges && rg.tag == r.identifier
                 && forall o :: o in ranges && o.tag in Identifiers(supported) ==> o.quality <= rg.quality
  {
    var sorted := SortByQuality(ranges);
    SortByQualitySameRanges(ranges);
    var hit := ExactHit(supported);
    var rg :| rg in ranges && rg.tag in Identifiers(supported);
    FirstIndexFinds(sorted, hit, rg);
    FirstHitHasTopQuality(sorted, hit);
    var k := FirstIndex(sorted, hit);
    assert sorted[k] in ranges;
  }

  /**
   * When no range names a supported identifier but some range's primary
   * subtag is a supported language code, the result is the first supported
   * language with the code of such a range of highest quality.
   */
  lemma PrimaryMatchFallback(ranges: seq<LanguageRange>, supported: seq<SupportedLanguage>)
    requires |supported| > 0
    requires forall rg :: rg in ranges ==> rg.tag !in Identifiers(supported)
    requires exists rg :: rg in ranges && PrimarySubtag(rg.tag) in LanguageCodes(supported)
    ensures var r := NegotiateRanges(ranges, supported);
            && r == FirstWithLanguageCode(supported, r.languageCode)
            && exists rg :: rg in ranges && PrimarySubtag(rg.tag) == r.languageCode
                 && forall o :: o in ranges && PrimarySubtag(o.tag) in LanguageCodes(supported) ==> o.quality <= rg.quality
  {
    var sorted := SortByQuality(ranges);
    SortByQualitySameRanges(ranges);
    assert FirstIndex(sorted, ExactHit(supported)) == |sorted|;
    var hit := PrimaryHit(supported);
    var rg :| rg in ranges && PrimarySubtag(rg.tag) in LanguageCodes(supported);
    FirstIndexFinds(sorted, hit, rg);
    FirstHitHasTopQuality(sorted, hit);
    var k := FirstIndex(sorted, hit);
    assert sorted[k] in ranges;
  }

  /** When neither pass finds anything, the first supported language is the default. */
  lemma NoMatchFallsBackToFirst(ranges: seq<LanguageRange>, supported: seq<SupportedLanguage>)
    requires |supported| > 0
    requires forall rg :: rg in ranges ==>
               rg.tag !in Identifiers(supported) && PrimarySubtag(rg.tag) !in LanguageCodes(supported)
    ensures NegotiateRanges(ranges, supported) == supported[0]
  {
    var sorted := SortByQuality(ranges);
    SortByQualitySameRanges(ranges);
    assert FirstIndex(sorted, ExactHit(supported)) == |sorted|;
    assert FirstIndex(sorted, PrimaryHit(supported)) == |sorted|;
  }

  /** A header without commas is one element. */
  lemma OneComponent(blank: char -> bool, parseQuality: string -> Option<real>, header: string)
    requires Split(header, ",") == [header]
    ensures ParseAcceptLanguage(blank, parseQuality, header) == [ParseRange(blank, parseQuality, header)]
  {
    assert ParseRanges(blank, parseQuality, [header]) == [ParseRange(blank, parseQuality, header)];
  }

  /** A header that is a single tag with no commas, semicolons or blanks parses to that tag with quality 1.0. */
  lemma SingleTagParses(blank: char -> bool, parseQuality: string -> Option<real>, tag: string)
    requires ',' !in tag && ';' !in tag && forall c :: c in tag ==> !blank(c)
    ensures ParseAcceptLanguage(blank, parseQuality, tag) == [LanguageRange(tag, 1.0)]
  {
    assert Split(tag, ",") == [tag] by {
      NoFirstCharNoOccurrence(tag, ",");
      SplitWithoutSeparator(tag, ",");
    }
    OneComponent(blank, parseQuality, tag);
    NoFirstCharNoOccurrence(tag, ";q=");
    RangeWithoutQuality(blank, parseQuality, tag);
    TrimWithoutBlanks(blank, tag);
  }

  /** With unique identifiers, a lone range naming a supported identifier selects that very language. */
  lemma LoneExactRangeSelects(supported: seq<SupportedLanguage>, i: int, quality: real)
    requires RouterPreconditions(supported)
    requires 0 <= i < |supported|
    ensures NegotiateRanges([LanguageRange(supported[i].identifier, quality)], supported) == supported[i]
  {
    var id := supported[i].identifier;
    var ranges := [LanguageRange(id, quality)];
    ExactMatchWins(ranges, supported);
    var r := NegotiateRanges(ranges, supported);
    assert r.identifier == id;
    RouterPreconditionsIff(supported);
    var k :| 0 <= k < |supported| && supported[k] == r;
    assert k == i;
  }

  /**
   * A header holding just a supported identifier (a single tag with no commas,
   * semicolons or blanks) negotiates to that language when identifiers are unique.
   */
  lemma IdentifierNegotiatesToItself(blank: char -> bool, parseQuality: string -> Option<real>,
                                     supported: seq<SupportedLanguage>, i: int)
    requires RouterPreconditions(supported)
    requires 0 <= i < |supported|
    requires var id := supported[i].identifier;
             ',' !in id && ';' !in id && forall c :: c in id ==> !blank(c)
    ensures NegotiateLanguage(blank, parseQuality, supported[i].identifier, supported) == supported[i]
  {
    SingleTagParses(blank, parseQuality, supported[i].identifier);
    LoneExactRangeSelects(supported, i, 1.0);
  }

  /** `buildRouter`'s preconditions: at least one language, and as many identifiers as languages. */
  predicate RouterPreconditions(langs: seq<SupportedLanguage>) {
    |langs| > 0 && |Identifiers(langs)| == |langs|
  }

  /** No two languages of the list share an identifier. */
  ghost predicate DistinctIdentifiers(langs: seq<SupportedLanguage>) {
    forall i, j :: 0 <= i < j < |langs| ==> langs[i].identifier != langs[j].identifier
  }

  lemma IdentifiersOfCons(langs: seq<SupportedLanguage>)
    requires langs != []
    ensures Identifiers(langs) == {langs[0].identifier} + Identifiers(langs[1..])
  {
    assert forall l :: l in langs <==> l == langs[0] || l in langs[1..];
  }

  lemma DistinctOfCons(langs: seq<SupportedLanguage>)
    requires langs != []
    ensures DistinctIdentifiers(langs) <==>
      DistinctIdentifiers(langs[1..]) && langs[0].identifier !in Identifiers(langs[1..])
  {
    var rest := langs[1..];
    if DistinctIdentifiers(rest) && langs[0].identifier !in Identifiers(rest) {
      forall i, j | 0 <= i < j < |langs| ensures langs[i].identifier != langs[j].identifier {
        assert langs[j] == rest[j - 1];
        if i > 0 { assert langs[i] == rest[i - 1]; }
      }
    }
    if DistinctIdentifiers(langs) {
      forall i, j | 0 <= i < j < |rest| ensures rest[i].identifier != rest[j].identifier {
        assert rest[i] == langs[i + 1] && rest[j] == langs[j + 1];
      }
      forall l | l in rest ensures l.identifier != langs[0].identifier {
        var j :| 0 <= j < |rest| && rest[j] == l;
        assert langs[j + 1] == l;
      }
    }
  }

  /** A list has at most as many identifiers as languages, and exactly as many when they are distinct. */
  lemma {:induction false} IdentifierCount(langs: seq<SupportedLanguage>)
    ensures |Identifiers(langs)| <= |langs|
    ensures |Identifiers(langs)| == |langs| <==> DistinctIdentifiers(langs)
  {
    if langs != [] {
      IdentifierCount(langs[1..]);
      IdentifiersOfCons(langs);
      DistinctOfCons(langs);
    }
  }

  /** The router's preconditions hold exactly when the list is non-empty and its identifiers pairwise distinct. */
  lemma RouterPreconditionsIff(langs: seq<SupportedLanguage>)
    ensures RouterPreconditions(langs) <==> |langs| > 0 && DistinctIdentifiers(langs)
  {
    IdentifierCount(langs);
  }

  /**
   * What Foundation's case-insensitive compare must satisfy for the result
   * comparator to be a valid sort predicate: a total preorder, with `Same`
   * as its equivalence.
   */
  ghost predicate CompareWf(compare: (string, string) -> Ordering) {
    && (forall a, b :: compare(a, b) == Ascending <==> compare(b, a) == Descending)
    && (forall a, b, c :: compare(a, b) == Ascending && compare(b, c) == Ascending ==> compare(a, c) == Ascending)
    && (forall a, b, c :: compare(a, b) == Same && compare(b, c) == Same ==> compare(a, c) == Same)
    && (forall a, b, c :: compare(a, b) == Same && compare(b, c) == Ascending ==> compare(a, c) == Ascending)
    && (forall a, b, c :: compare(a, b) == Ascending && compare(b, c) == Same ==> compare(a, c) == Ascending)
  }

  /** The comparator of the result list: case-insensitive order, ties broken by `<`. */
  predicate ResultPrecedes(compare: (string, string) -> Ordering, a: string, b: string) {
    match compare(a, b)
    case Same => StringLess(a, b)
    case ordering => ordering == Ascending
  }

  function ResultOrder(compare: (string, string) -> Ordering): (string, string) -> bool {
    (a, b) => ResultPrecedes(compare, a, b)
  }

  /** The result comparator orders words strictly and totally. */
  lemma ResultOrderIsStrictTotal(compare: (string, string) -> Ordering)
    requires CompareWf(compare)
    ensures Sorting.StrictTotalOrder(ResultOrder(compare))
  {
    var less := ResultOrder(compare);
    forall x ensures !less(x, x) {
      StringLessIrreflexive(x);
    }
    forall x, y, z | less(x, y) && less(y, z) ensures less(x, z) {
      if compare(x, y) == Same && compare(y, z) == Same {
        StringLessTransitive(x, y, z);
      }
    }
    forall x, y | x != y ensures less(x, y) || less(y, x) {
      StringLessTotal(x, y);
    }
  }

  /**
   * `Array(resultSet).sorted { … }`: the results, each once, ascending by
   * case-insensitive compare and, among words that compare the same, by `<`.
   */
  function OrderResults(locale: Locale, results: set<string>): (r: seq<string>)
    requires CompareWf(locale.compare)
    ensures |r| == |results| && forall w :: w in r <==> w in results
    ensures forall i, j :: 0 <= i < j < |r| ==>
      || locale.compare(r[i], r[j]) == Ascending
      || (locale.compare(r[i], r[j]) == Same && StringLess(r[i], r[j]))
  {
    ResultOrderIsStrictTotal(locale.compare);
    var r := Sorting.SortedEnumeration(results, ResultOrder(locale.compare));
    assert forall i, j :: 0 <= i < j < |r| ==> ResultPrecedes(locale.compare, r[i], r[j]);
    r
  }

  /** Of two words that compare the same ignoring case, the one first under `<` ("Attic") comes first. */
  lemma TiesBrokenByRawOrder(locale: Locale)
    requires CompareWf(locale.compare)
    requires locale.compare("attic", "Attic") == Same
    ensures OrderResults(locale, {"attic", "Attic"}) == ["Attic", "attic"]
  {
    var r := OrderResults(locale, {"attic", "Attic"});
    assert "attic" != "Attic" by { assert "attic"[0] != "Attic"[0]; }
    assert |r| == 2;
    assert !StringLess("attic", "Attic");
    assert r[0] in {"attic", "Attic"} && r[1] in {"attic", "Attic"};
  }

  /**
   * The POST handler: an invalid pattern gives no result list (the page shows
   * the bad-pattern message); otherwise the matching words of the language,
   * each once, in result order.
   */
  function PostResults(u: Unicode, language: SupportedLanguage, rawPattern: string): (r: Option<seq<string>>)
    requires CompareWf(language.locale.compare)
    ensures r.None? <==> Solver.MakePattern(u, rawPattern, language.locale).None?
    ensures r.Some? ==> forall w :: w in r.value <==>
      w in language.solver.words && Solver.Matches(u, Solver.MakePattern(u, rawPattern, language.locale).value, w)
    ensures r.Some? ==> Sorting.StrictlyAscending(r.value, ResultOrder(language.locale.compare))
  {
    match Solver.MakePattern(u, rawPattern, language.locale)
    case None => None
    case Some(pattern) =>
      var results := OrderResults(language.locale, Solver.Solve(u, language.solver, pattern));
      assert Sorting.StrictlyAscending(results, ResultOrder(language.locale.compare));
      Some(results)
  }
}
