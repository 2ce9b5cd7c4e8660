/**
 * Characters, strings and the platform's facts about them.
 *
 * Swift characters are modelled as Dafny `char`s and strings as `seq<char>`.
 * What the Unicode tables and the locale database say about a character is not
 * interpreted here: it arrives as the function-typed fields of `Unicode` and
 * `Locale`, and every property that needs more than that states its assumption.
 */
module Text {

  /** Facts from the Unicode tables that the model takes as given. */
  datatype Unicode = Unicode(
    isWhitespace: char -> bool,   // Character.isWhitespace
    isBlank: char -> bool,        // membership in CharacterSet.whitespaces (used by trimming)
    isLetter: char -> bool,       // Character.isLetter
    isWordChar: char -> bool,     // the regular-expression class \w
    caseEq: (char, char) -> bool  // equality of two characters when case is ignored
  )

  /** The result of a three-way comparison (Foundation's ComparisonResult). */
  datatype Ordering = Ascending | Same | Descending

  /** The rules of one locale: diacritic folding and case-insensitive collation. */
  datatype Locale = Locale(
    fold: char -> char,                        // folding(options: .diacriticInsensitive, locale:)
    compare: (string, string) -> Ordering      // compare(_:options: .caseInsensitive, locale:)
  )

  predicate HasPrefix(s: string, prefix: string) {
    |prefix| <= |s| && s[..|prefix|] == prefix
  }

  predicate OccursAt(s: string, sub: string, i: int) {
    0 <= i && i + |sub| <= |s| && s[i..i + |sub|] == sub
  }

  /** Substring search, as `StringProtocol.contains(_:)` with a string argument. */
  predicate Contains(s: string, sub: string) {
    exists i | 0 <= i <= |s| - |sub| :: OccursAt(s, sub, i)
  }

  lemma NoFirstCharNoOccurrence(s: string, sep: string)
    requires |sep| > 0 && sep[0] !in s
    ensures !Contains(s, sep)
  {
    forall i | OccursAt(s, sep, i) ensures false { }
  }

  /**
   * `components(separatedBy:)`: the pieces of `s` between the occurrences of
   * `sep`, scanned from the left. There is always at least one piece.
   */
  function Split(s: string, sep: string): (parts: seq<string>)
    requires |sep| > 0
    ensures |parts| >= 1
    ensures HasPrefix(s, parts[0])
    decreases |s|
  {
    if |s| < |sep| then [s]
    else if s[..|sep|] == sep then [[]] + Split(s[|sep|..], sep)
    else
      var rest := Split(s[1..], sep);
      [[s[0]] + rest[0]] + rest[1..]
  }

  /** The pieces glued back together with the separator between them. */
  function Join(parts: seq<string>, sep: string): string
    requires |parts| >= 1
  {
    if |parts| == 1 then parts[0] else parts[0] + sep + Join(parts[1..], sep)
  }

  /** Extending the first piece by one character extends the joined string by that character. */
  lemma JoinExtendsHead(c: char, parts: seq<string>, sep: string)
    requires |parts| >= 1
    ensures Join([[c] + parts[0]] + parts[1..], sep) == [c] + Join(parts, sep)
  {
    var longer := [[c] + parts[0]] + parts[1..];
    if |parts| > 1 {
      assert longer[1..] == parts[1..];
    }
  }

  /** Splitting loses nothing: joining the pieces gives the original string back. */
  lemma {:induction false} SplitJoin(s: string, sep: string)
    requires |sep| > 0
    ensures Join(Split(s, sep), sep) == s
    decreases |s|
  {
    if |s| < |sep| {
    } else if s[..|sep|] == sep {
      SplitJoin(s[|sep|..], sep);
      assert s == sep + s[|sep|..];
    } else {
      SplitJoin(s[1..], sep);
      JoinExtendsHead(s[0], Split(s[1..], sep), sep);
      assert [s[0]] + s[1..] == s;
    }
  }

  /** No piece contains the separator, so the split is the finest one. */
  lemma {:induction false} SplitPartsAvoidSeparator(s: string, sep: string)
    requires |sep| > 0
    ensures forall k :: 0 <= k < |Split(s, sep)| ==> !Contains(Split(s, sep)[k], sep)
    decreases |s|
  {
    var parts := Split(s, sep);
    if |s| < |sep| {
      forall i | OccursAt(s, sep, i) ensures false { }
    } else if s[..|sep|] == sep {
      SplitPartsAvoidSeparator(s[|sep|..], sep);
      forall k | 0 <= k < |parts| ensures !Contains(parts[k], sep) {
        if k > 0 { assert parts[k] == Split(s[|sep|..], sep)[k - 1]; }
      }
    } else {
      var rest := Split(s[1..], sep);
      SplitPartsAvoidSeparator(s[1..], sep);
      var head := [s[0]] + rest[0];
      assert HasPrefix(s[1..], rest[0]);
      forall i | OccursAt(head, sep, i) ensures false {
        if i > 0 {
          assert rest[0][i - 1..i - 1 + |sep|] == head[i..i + |sep|];
          assert OccursAt(rest[0], sep, i - 1);
        }
      }
      forall k | 0 <= k < |parts| ensures !Contains(parts[k], sep) {
        if k > 0 { assert parts[k] == rest[k]; }
      }
    }
  }

  /** A string in which the separator does not occur splits into itself alone. */
  lemma {:induction false} SplitWithoutSeparator(s: string, sep: string)
    requires |sep| > 0 && !Contains(s, sep)
    ensures Split(s, sep) == [s]
    decreases |s|
  {
    if |s| < |sep| {
    } else {
      assert !OccursAt(s, sep, 0);
      if !Contains(s[1..], sep) {
        SplitWithoutSeparator(s[1..], sep);
        assert [s[0]] + s[1..] == s;
      } else {
        var i :| 0 <= i <= |s[1..]| - |sep| && OccursAt(s[1..], sep, i);
        assert s[1..][i..i + |sep|] == s[i + 1..i + 1 + |sep|];
        assert OccursAt(s, sep, i + 1);
      }
    }
  }

  /** When the first character of the separator is not in `a`, the first piece of `a + sep + b` is `a`. */
  lemma {:induction false} SplitHead(a: string, sep: string, b: string)
    requires |sep| > 0 && sep[0] !in a
    ensures Split(a + sep + b, sep)[0] == a
    decreases |a|
  {
    var s := a + sep + b;
    if a == [] {
      assert s[..|sep|] == sep;
    } else {
      assert s[..|sep|][0] == a[0] != sep[0];
      assert s[1..] == a[1..] + sep + b;
      SplitHead(a[1..], sep, b);
      assert [a[0]] + a[1..] == a;
    }
  }

  /** When the first character of the separator is not in `a`, splitting `a + sep + b` gives `a`, then the pieces of `b`. */
  lemma {:induction false} SplitAtFirst(a: string, sep: string, b: string)
    requires |sep| > 0 && sep[0] !in a
    ensures Split(a + sep + b, sep) == [a] + Split(b, sep)
    decreases |a|
  {
    var s := a + sep + b;
    if a == [] {
      assert s[..|sep|] == sep;
      assert s[|sep|..] == b;
    } else {
      assert s[..|sep|][0] == a[0] != sep[0];
      assert s[1..] == a[1..] + sep + b;
      SplitAtFirst(a[1..], sep, b);
      assert [a[0]] + a[1..] == a;
    }
  }

  /** Drops the leading characters that `blank` accepts. */
  function TrimStart(blank: char -> bool, s: string): (r: string)
    ensures |r| <= |s| && r == s[|s| - |r|..]
    ensures forall i :: 0 <= i < |s| - |r| ==> blank(s[i])
    ensures r != [] ==> !blank(r[0])
  {
    if s != [] && blank(s[0]) then
      var r := TrimStart(blank, s[1..]);
      assert s[1..][|s[1..]| - |r|..] == s[|s| - |r|..];
      r
    else s
  }

  /** Drops the trailing characters that `blank` accepts. */
  function TrimEnd(blank: char -> bool, s: string): (r: string)
    ensures |r| <= |s| && r == s[..|r|]
    ensures forall i :: |r| <= i < |s| ==> blank(s[i])
    ensures r != [] ==> !blank(r[|r| - 1])
  {
    if s != [] && blank(s[|s| - 1]) then TrimEnd(blank, s[..|s| - 1]) else s
  }

  /**
   * `trimmingCharacters(in:)`: the longest infix of `s` that neither starts
   * nor ends with a blank; everything removed is blank.
   */
  function Trim(blank: char -> bool, s: string): (r: string)
    ensures exists i :: TrimmedAt(blank, s, r, i)
    ensures r != [] ==> !blank(r[0]) && !blank(r[|r| - 1])
  {
    var t := TrimStart(blank, s);
    var r := TrimEnd(blank, t);
    var i := |s| - |t|;
    assert r == s[i..i + |r|];
    forall k | i + |r| <= k < |s| ensures blank(s[k]) {
      assert s[k] == t[k - i];
    }
    assert TrimmedAt(blank, s, r, i);
    r
  }

  /** `r` is the infix of `s` at offset `i`, and every character of `s` outside it is blank. */
  predicate TrimmedAt(blank: char -> bool, s: string, r: string, i: int) {
    && 0 <= i <= |s| - |r| && r == s[i..i + |r|]
    && (forall k :: 0 <= k < i ==> blank(s[k]))
    && (forall k :: i + |r| <= k < |s| ==> blank(s[k]))
  }

  /** A string that neither starts nor ends with a blank is left as it is. */
  lemma TrimKeepsUnblankedEnds(blank: char -> bool, s: string)
    requires s == [] || (!blank(s[0]) && !blank(s[|s| - 1]))
    ensures Trim(blank, s) == s
  {
    assert TrimStart(blank, s) == s;
    assert TrimEnd(blank, s) == s;
  }

  /** Trimming twice is trimming once. */
  lemma TrimIdempotent(blank: char -> bool, s: string)
    ensures Trim(blank, Trim(blank, s)) == Trim(blank, s)
  {
    TrimKeepsUnblankedEnds(blank, Trim(blank, s));
  }

  /** A string with no blank characters is left as it is. */
  lemma TrimWithoutBlanks(blank: char -> bool, s: string)
    requires forall c :: c in s ==> !blank(c)
    ensures Trim(blank, s) == s
  {
    if s != [] {
      assert s[0] in s && s[|s| - 1] in s;
    }
    TrimKeepsUnblankedEnds(blank, s);
  }

  /**
   * Swift's `<` on strings: lexicographic on characters, a proper prefix
   * coming first.
   */
  predicate StringLess(a: string, b: string) {
    if b == [] then false
    else if a == [] then true
    else a[0] < b[0] || (a[0] == b[0] && StringLess(a[1..], b[1..]))
  }

  lemma {:induction false} StringLessIrreflexive(a: string)
    ensures !StringLess(a, a)
  {
    if a != [] { StringLessIrreflexive(a[1..]); }
  }

  lemma {:induction false} StringLessTransitive(a: string, b: string, c: string)
    requires StringLess(a, b) && StringLess(b, c)
    ensures StringLess(a, c)
  {
    if a != [] && a[0] == b[0] && b[0] == c[0] {
      StringLessTransitive(a[1..], b[1..], c[1..]);
    }
  }

  lemma {:induction false} StringLessTotal(a: string, b: string)
    ensures a == b || StringLess(a, b) || StringLess(b, a)
  {
    if a != [] && b != [] && a[0] == b[0] {
      StringLessTotal(a[1..], b[1..]);
      if a[1..] == b[1..] {
        assert a == [a[0]] + a[1..] && b == [b[0]] + b[1..];
      }
    }
  }
}
