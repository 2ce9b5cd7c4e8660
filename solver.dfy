/**
 * The wildcard pattern and the word-list solver (Sources/Solver/Solver.swift).
 *
 * A pattern is typed as letters and `?`, with any whitespace. Construction
 * removes the whitespace and validates the rest. It then folds diacritics under
 * the locale and compiles the result into a regular expression: each `?` becomes
 * `\w`, each other character a literal, and case is ignored. Because every unit
 * of that expression matches exactly one character, the compiled form is a
 * sequence of `Token`s. A candidate is folded the same way and must be consumed
 * whole.
 */
module Solver {
  import opened Wrappers
  import opened Text

  /** One unit of the compiled expression: `\w`, or a literal matched ignoring case. */
  datatype Token = Wild | Lit(c: char)

  /** A validated pattern: the compiled expression and the locale that folds candidates. */
  datatype Pattern = Pattern(tokens: seq<Token>, locale: Locale)

  /** The immutable corpus of one language. */
  datatype Solver = Solver(words: seq<string>)

  /** `filter { !$0.isWhitespace }`: the non-whitespace characters of `s`, in order. */
  function RemoveWhitespace(u: Unicode, s: string): (r: string)
    ensures |r| <= |s|
    ensures forall c :: c in r <==> c in s && !u.isWhitespace(c)
  {
    if s == [] then []
    else if u.isWhitespace(s[0]) then RemoveWhitespace(u, s[1..])
    else [s[0]] + RemoveWhitespace(u, s[1..])
  }

  /** Removing whitespace distributes over concatenation. */
  lemma {:induction false} RemoveWhitespaceAppend(u: Unicode, a: string, b: string)
    ensures RemoveWhitespace(u, a + b) == RemoveWhitespace(u, a) + RemoveWhitespace(u, b)
  {
    if a == [] {
      assert a + b == b;
    } else {
      assert (a + b)[0] == a[0] && (a + b)[1..] == a[1..] + b;
      RemoveWhitespaceAppend(u, a[1..], b);
    }
  }

  /** `foldedDiacritics(locale:)`: every character folded on its own, so the length is kept. */
  function FoldDiacritics(locale: Locale, s: string): (r: string)
    ensures |r| == |s|
    ensures forall i :: 0 <= i < |s| ==> r[i] == locale.fold(s[i])
  {
    if s == [] then [] else [locale.fold(s[0])] + FoldDiacritics(locale, s[1..])
  }

  predicate IsPatternChar(u: Unicode, c: char) {
    c == '?' || u.isLetter(c)
  }

  /** The replacement of every `?` by `\w` in the folded text; other characters stay literals. */
  function Compile(folded: string): (tokens: seq<Token>)
    ensures |tokens| == |folded|
    ensures forall i :: 0 <= i < |folded| ==> (tokens[i] == Wild <==> folded[i] == '?')
    ensures forall i :: 0 <= i < |folded| && folded[i] != '?' ==> tokens[i] == Lit(folded[i])
  {
    if folded == [] then []
    else [if folded[0] == '?' then Wild else Lit(folded[0])] + Compile(folded[1..])
  }

  /** `Pattern.init?(string:locale:)`. */
  function MakePattern(u: Unicode, s: string, locale: Locale): (r: Option<Pattern>)
    ensures r.Some? ==> |r.value.tokens| == |RemoveWhitespace(u, s)| && r.value.locale == locale
  {
    var pattern := RemoveWhitespace(u, s);
    if |pattern| > 0 && forall i | 0 <= i < |pattern| :: IsPatternChar(u, pattern[i]) then
      Some(Pattern(Compile(FoldDiacritics(locale, pattern)), locale))
    else
      None
  }

  /**
   * Construction succeeds exactly when the input has a non-whitespace character
   * and every non-whitespace character is `?` or a letter.
   */
  lemma MakePatternSucceedsIff(u: Unicode, s: string, locale: Locale)
    ensures MakePattern(u, s, locale).Some? <==>
      && (exists c :: c in s && !u.isWhitespace(c))
      && (forall c :: c in s && !u.isWhitespace(c) ==> IsPatternChar(u, c))
  {
    var pattern := RemoveWhitespace(u, s);
    assert (forall i | 0 <= i < |pattern| :: IsPatternChar(u, pattern[i])) <==>
           (forall c :: c in pattern ==> IsPatternChar(u, c));
    if |pattern| > 0 {
      assert pattern[0] in pattern;
    }
  }

  /** One character that is neither whitespace, `?` nor a letter is enough to refuse the input. */
  lemma ForeignCharRefused(u: Unicode, s: string, locale: Locale, c: char)
    requires c in s && !u.isWhitespace(c) && !IsPatternChar(u, c)
    ensures MakePattern(u, s, locale).None?
  {
    var pattern := RemoveWhitespace(u, s);
    assert c in pattern;
    var i :| 0 <= i < |pattern| && pattern[i] == c;
    assert !IsPatternChar(u, pattern[i]);
  }

  /** A hyphen is neither whitespace, `?` nor a letter, so "grand-mother" is refused. */
  lemma HyphenatedPatternRefused(u: Unicode, locale: Locale)
    requires !u.isWhitespace('-') && !u.isLetter('-')
    ensures MakePattern(u, "grand-mother", locale).None?
  {
    assert "grand-mother"[5] == '-';
    ForeignCharRefused(u, "grand-mother", locale, '-');
  }

  /** Whitespace inserted anywhere in the input changes neither the verdict nor the compiled pattern. */
  lemma {:induction false} WhitespaceIgnored(u: Unicode, a: string, w: char, b: string, locale: Locale)
    requires u.isWhitespace(w)
    ensures MakePattern(u, a + [w] + b, locale) == MakePattern(u, a + b, locale)
  {
    RemoveWhitespaceAppend(u, a + [w], b);
    RemoveWhitespaceAppend(u, a, [w]);
    RemoveWhitespaceAppend(u, a, b);
    assert RemoveWhitespace(u, [w]) == [];
    assert RemoveWhitespace(u, a) + [] == RemoveWhitespace(u, a);
    var p1 := RemoveWhitespace(u, a + [w] + b);
    var p2 := RemoveWhitespace(u, a + b);
    assert p1 == p2;
  }

  /** Whether one unit of the expression matches one character of the folded candidate. */
  predicate Accepts(u: Unicode, t: Token, c: char) {
    match t
    case Wild => u.isWordChar(c)
    case Lit(l) => u.caseEq(l, c)
  }

  /** The engine's whole match: the units consume the candidate one character each, leaving nothing. */
  predicate WholeMatch(u: Unicode, tokens: seq<Token>, s: string)
    decreases |tokens|
  {
    if tokens == [] then s == []
    else s != [] && Accepts(u, tokens[0], s[0]) && WholeMatch(u, tokens[1..], s[1..])
  }

  /** A whole match is a match of equal length, position by position. */
  lemma {:induction false} WholeMatchIff(u: Unicode, tokens: seq<Token>, s: string)
    ensures WholeMatch(u, tokens, s) <==>
      |tokens| == |s| && forall i :: 0 <= i < |s| ==> Accepts(u, tokens[i], s[i])
    decreases |tokens|
  {
    if tokens != [] && s != [] {
      WholeMatchIff(u, tokens[1..], s[1..]);
      if |tokens| == |s| && (forall i :: 0 <= i < |s| ==> Accepts(u, tokens[i], s[i])) {
        assert forall i :: 0 <= i < |s[1..]| ==> s[1..][i] == s[i + 1] && tokens[1..][i] == tokens[i + 1];
      }
      if WholeMatch(u, tokens, s) {
        forall i | 0 <= i < |s| ensures Accepts(u, tokens[i], s[i]) {
          if i > 0 { assert s[1..][i - 1] == s[i] && tokens[1..][i - 1] == tokens[i]; }
        }
      }
    }
  }

  /** `Pattern.matches(string:)`. */
  predicate Matches(u: Unicode, p: Pattern, w: string) {
    WholeMatch(u, p.tokens, FoldDiacritics(p.locale, w))
  }

  /**
   * What a valid pattern accepts, in terms of the text the user typed: the
   * folded candidate has the length of the pattern without its whitespace; where
   * the folded pattern has `?` the candidate has a word character; elsewhere the
   * two folded characters are equal ignoring case.
   */
  lemma MatchesIff(u: Unicode, s: string, locale: Locale, w: string)
    requires MakePattern(u, s, locale).Some?
    ensures var folded := FoldDiacritics(locale, RemoveWhitespace(u, s));
      Matches(u, MakePattern(u, s, locale).value, w) <==>
        && |w| == |folded|
        && (forall i :: 0 <= i < |w| && folded[i] == '?' ==> u.isWordChar(locale.fold(w[i])))
        && (forall i :: 0 <= i < |w| && folded[i] != '?' ==> u.caseEq(folded[i], locale.fold(w[i])))
  {
    var p := MakePattern(u, s, locale).value;
    var folded := FoldDiacritics(locale, RemoveWhitespace(u, s));
    var fw := FoldDiacritics(locale, w);
    WholeMatchIff(u, p.tokens, fw);
    assert p.tokens == Compile(folded);
    if |w| == |folded| {
      forall i | 0 <= i < |w|
        ensures Accepts(u, p.tokens[i], fw[i]) <==>
          (if folded[i] == '?' then u.isWordChar(locale.fold(w[i])) else u.caseEq(folded[i], locale.fold(w[i])))
      {
      }
    }
  }

  /** The match is anchored at both ends: a candidate of another length never matches. */
  lemma MatchIsAnchored(u: Unicode, s: string, locale: Locale, w: string)
    requires MakePattern(u, s, locale).Some?
    requires |w| != |RemoveWhitespace(u, s)|
    ensures !Matches(u, MakePattern(u, s, locale).value, w)
  {
    MatchesIff(u, s, locale, w);
  }

  /**
   * A `?` accepts exactly the characters that fold to a word character: the
   * verdict on a matching word is kept when the character under a `?` is
   * replaced by any such character, and lost otherwise.
   */
  lemma WildcardMatchesOneWordChar(u: Unicode, s: string, locale: Locale, w: string, i: int, c: char)
    requires MakePattern(u, s, locale).Some?
    requires locale.fold('?') == '?'
    requires Matches(u, MakePattern(u, s, locale).value, w)
    requires 0 <= i < |w| && i < |RemoveWhitespace(u, s)| && RemoveWhitespace(u, s)[i] == '?'
    ensures Matches(u, MakePattern(u, s, locale).value, w[i := c]) <==> u.isWordChar(locale.fold(c))
  {
    var w2 := w[i := c];
    MatchesIff(u, s, locale, w);
    MatchesIff(u, s, locale, w2);
    var folded := FoldDiacritics(locale, RemoveWhitespace(u, s));
    assert folded[i] == '?';
    assert w2[i] == c;
    assert forall j :: 0 <= j < |w| && j != i ==> w2[j] == w[j];
  }

  /**
   * Case and diacritics of the typed pattern do not matter: two valid patterns
   * whose texts fold to characters that are pairwise equal ignoring case accept
   * the same words, provided ignoring case is an equivalence.
   */
  lemma FoldedCaselessEqualPatternsAgree(u: Unicode, s1: string, s2: string, locale: Locale, w: string)
    requires MakePattern(u, s1, locale).Some? && MakePattern(u, s2, locale).Some?
    requires forall a, b :: u.caseEq(a, b) ==> u.caseEq(b, a)
    requires forall a, b, c :: u.caseEq(a, b) && u.caseEq(b, c) ==> u.caseEq(a, c)
    requires var f1 := FoldDiacritics(locale, RemoveWhitespace(u, s1));
             var f2 := FoldDiacritics(locale, RemoveWhitespace(u, s2));
             && |f1| == |f2|
             && (forall i :: 0 <= i < |f1| ==> (f1[i] == '?' <==> f2[i] == '?'))
             && (forall i :: 0 <= i < |f1| && f1[i] != '?' ==> u.caseEq(f1[i], f2[i]))
    ensures Matches(u, MakePattern(u, s1, locale).value, w) <==> Matches(u, MakePattern(u, s2, locale).value, w)
  {
    MatchesIff(u, s1, locale, w);
    MatchesIff(u, s2, locale, w);
  }

  /** Text without whitespace is kept as it is. */
  lemma {:induction false} RemoveWhitespaceKeepsSolid(u: Unicode, s: string)
    requires forall c :: c in s ==> !u.isWhitespace(c)
    ensures RemoveWhitespace(u, s) == s
  {
    if s != [] {
      assert s[0] in s;
      RemoveWhitespaceKeepsSolid(u, s[1..]);
      assert [s[0]] + s[1..] == s;
    }
  }

  /**
   * A non-empty text of `?` and letters, without whitespace and left alone by
   * folding, compiles character by character.
   */
  lemma SolidPatternCompiles(u: Unicode, s: string, locale: Locale)
    requires s != []
    requires forall c :: c in s ==> !u.isWhitespace(c) && IsPatternChar(u, c) && locale.fold(c) == c
    ensures MakePattern(u, s, locale) == Some(Pattern(Compile(s), locale))
  {
    RemoveWhitespaceKeepsSolid(u, s);
    MakePatternSucceedsIff(u, s, locale);
    assert s[0] in s;
    assert FoldDiacritics(locale, s) == s;
  }

  /** "a?b?" compiles, character by character, to a literal, a wildcard, a literal and a wildcard. */
  lemma CompileExample()
    ensures Compile("a?b?") == [Lit('a'), Wild, Lit('b'), Wild]
  {
    var t := Compile("a?b?");
    assert t[0] == Lit('a') && t[1] == Wild && t[2] == Lit('b') && t[3] == Wild;
  }

  /** Every character of "a?b?" is a pattern character that folding leaves alone, given those facts about `a` and `b`. */
  lemma ExampleIsSolid(u: Unicode, locale: Locale)
    requires !u.isWhitespace('a') && !u.isWhitespace('b') && !u.isWhitespace('?')
    requires u.isLetter('a') && u.isLetter('b')
    requires locale.fold('a') == 'a' && locale.fold('b') == 'b' && locale.fold('?') == '?'
    ensures forall c :: c in "a?b?" ==> !u.isWhitespace(c) && IsPatternChar(u, c) && locale.fold(c) == c
  {
    var s := "a?b?";
    forall c | c in s ensures !u.isWhitespace(c) && IsPatternChar(u, c) && locale.fold(c) == c {
      var i :| 0 <= i < |s| && s[i] == c;
      assert c == 'a' || c == '?' || c == 'b';
    }
  }

  /** "a?b?" is accepted and compiles to a literal, a wildcard, a literal and a wildcard. */
  lemma ExamplePatternCompiles(u: Unicode, locale: Locale)
    requires !u.isWhitespace('a') && !u.isWhitespace('b') && !u.isWhitespace('?')
    requires u.isLetter('a') && u.isLetter('b')
    requires locale.fold('a') == 'a' && locale.fold('b') == 'b' && locale.fold('?') == '?'
    ensures MakePattern(u, "a?b?", locale) == Some(Pattern([Lit('a'), Wild, Lit('b'), Wild], locale))
  {
    ExampleIsSolid(u, locale);
    SolidPatternCompiles(u, "a?b?", locale);
    CompileExample();
  }

  /** "a?b?" accepts "axby", given the obvious facts about the characters involved. */
  lemma WildcardPatternExample(u: Unicode, locale: Locale)
    requires !u.isWhitespace('a') && !u.isWhitespace('b') && !u.isWhitespace('?')
    requires u.isLetter('a') && u.isLetter('b')
    requires locale.fold('a') == 'a' && locale.fold('b') == 'b' && locale.fold('?') == '?'
    requires locale.fold('x') == 'x' && locale.fold('y') == 'y'
    requires u.caseEq('a', 'a') && u.caseEq('b', 'b') && u.isWordChar('x') && u.isWordChar('y')
    ensures MakePattern(u, "a?b?", locale).Some?
    ensures Matches(u, MakePattern(u, "a?b?", locale).value, "axby")
  {
    ExamplePatternCompiles(u, locale);
    assert FoldDiacritics(locale, "axby") == "axby";
    WholeMatchIff(u, [Lit('a'), Wild, Lit('b'), Wild], "axby");
  }

  /** `words.filter(pattern.matches)`: the matching words, in corpus order. */
  function MatchingWords(u: Unicode, p: Pattern, words: seq<string>): (r: seq<string>)
    ensures |r| <= |words|
    ensures forall w :: w in r <==> w in words && Matches(u, p, w)
  {
    if words == [] then []
    else if Matches(u, p, words[0]) then [words[0]] + MatchingWords(u, p, words[1..])
    else MatchingWords(u, p, words[1..])
  }

  /** The number of distinct elements of a sequence is at most its length. */
  lemma {:induction false} DistinctAtMostLength(s: seq<string>)
    ensures |set w | w in s| <= |s|
  {
    if s != [] {
      DistinctAtMostLength(s[1..]);
      assert (set w | w in s) == {s[0]} + (set w | w in s[1..]);
    }
  }

  /**
   * `Solver.solve(pattern:)`: exactly the corpus words the pattern matches,
   * as a set. It is never larger than the corpus, and empty for an empty corpus.
   */
  function Solve(u: Unicode, solver: Solver, p: Pattern): (r: set<string>)
    ensures forall w :: w in r <==> w in solver.words && Matches(u, p, w)
    ensures |r| <= |solver.words|
  {
    var matching := MatchingWords(u, p, solver.words);
    DistinctAtMostLength(matching);
    set w | w in matching
  }

  /** Solving depends only on which words the corpus holds, not on their order or repetition. */
  lemma SolveDependsOnlyOnWordSet(u: Unicode, s1: Solver, s2: Solver, p: Pattern)
    requires forall w :: w in s1.words <==> w in s2.words
    ensures Solve(u, s1, p) == Solve(u, s2, p)
  {
  }
}
