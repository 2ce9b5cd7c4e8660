/**
 * The static-file guard and the ranged read of the file provider
 * (Sources/App/StaticFileProvider.swift).
 *
 * The bundle's resource directory arrives as its path string `root`. What
 * `URL(fileURLWithPath:).path` makes of a path string is an input
 * (`urlPath`); file contents arrive as byte sequences.
 */
module StaticFiles {
  import opened Wrappers
  import opened Text

  /** The prefix a request path must have to be served as a static file. */
  const StaticPrefix := "/static/"

  /**
   * `getFileIdentifier(_:)`: accepts only paths under `/static/`, refuses any
   * `..` after the leading slash, and maps the rest onto the resource
   * directory, which must still be under its `static` directory once turned
   * into a URL path.
   */
  function GetFileIdentifier(root: string, urlPath: string -> string, path: string): (r: Option<string>)
    ensures r.Some? <==>
      && HasPrefix(path, StaticPrefix)
      && !Contains(path[1..], "..")
      && HasPrefix(urlPath(root + "/" + path[1..]), root + StaticPrefix)
    ensures r.Some? ==> r.value == root + "/" + path[1..]
  {
    if !HasPrefix(path, StaticPrefix) then None
    else
      var staticPath := path[1..];
      if Contains(staticPath, "..") then None
      else
        var fullPath := root + "/" + staticPath;
        if !HasPrefix(urlPath(fullPath), root + StaticPrefix) then None
        else Some(fullPath)
  }

  /**
   * Every identifier handed out lies in the resource directory's `static`
   * directory, and the part of it below the resource directory holds no `..`.
   */
  lemma IdentifierStaysUnderStatic(root: string, urlPath: string -> string, path: string)
    requires GetFileIdentifier(root, urlPath, path).Some?
    ensures var id := GetFileIdentifier(root, urlPath, path).value;
            && HasPrefix(id, root + StaticPrefix)
            && id[..|root|] == root
            && !Contains(id[|root| + 1..], "..")
  {
    var id := GetFileIdentifier(root, urlPath, path).value;
    assert id[|root| + 1..] == path[1..];
    assert id[..|root| + |StaticPrefix|] == root + "/" + path[1..|StaticPrefix|];
    assert path[1..|StaticPrefix|] == StaticPrefix[1..];
  }

  /**
   * When the URL path of a file path is that path unchanged, the final prefix
   * check never refuses anything: the first two guards decide alone.
   */
  lemma FinalCheckRedundantForPlainPaths(root: string, urlPath: string -> string, path: string)
    requires forall p :: urlPath(p) == p
    ensures GetFileIdentifier(root, urlPath, path).Some? <==>
      HasPrefix(path, StaticPrefix) && !Contains(path[1..], "..")
  {
    if HasPrefix(path, StaticPrefix) {
      var fullPath := root + "/" + path[1..];
      assert fullPath[..|root| + |StaticPrefix|] == root + "/" + path[1..|StaticPrefix|];
      assert path[1..|StaticPrefix|] == StaticPrefix[1..];
    }
  }

  /** Putting `static/` in front of a name without `..` creates no `..`. */
  lemma StaticDirectoryAddsNoDots(name: string)
    requires !Contains(name, "..")
    ensures !Contains("static/" + name, "..")
  {
    var s := "static/" + name;
    forall i | 0 <= i <= |s| - 2 ensures !OccursAt(s, "..", i) {
      if i < 7 {
        assert s[i] == "static/"[i];
        assert '.' !in "static/";
        assert s[i..i + 2][0] == s[i];
      } else {
        assert s[i..i + 2] == name[i - 7..i - 5];
        assert !OccursAt(name, "..", i - 7);
      }
    }
  }

  /**
   * A file name without `..` under `/static/` maps onto the same name in the
   * resource directory's `static` directory ("/static/styles.css" under
   * "/test/bundle" is "/test/bundle/static/styles.css").
   */
  lemma StaticFileIdentifier(root: string, urlPath: string -> string, name: string)
    requires forall p :: urlPath(p) == p
    requires !Contains(name, "..")
    ensures GetFileIdentifier(root, urlPath, StaticPrefix + name) == Some(root + StaticPrefix + name)
  {
    var path := StaticPrefix + name;
    assert HasPrefix(path, StaticPrefix);
    assert path[1..] == "static/" + name;
    StaticDirectoryAddsNoDots(name);
    FinalCheckRedundantForPlainPaths(root, urlPath, path);
    assert root + "/" + path[1..] == root + StaticPrefix + name;
  }

  /** A path outside `/static/` is refused, whatever the URL path of anything. */
  lemma WordListNotServed(root: string, urlPath: string -> string)
    ensures GetFileIdentifier(root, urlPath, "/words-en.txt") == None
  {
    assert "/words-en.txt"[1] != StaticPrefix[1];
  }

  /** A path that climbs out of `/static/` with `..` is refused, whatever the URL path of anything. */
  lemma TraversalRefused(root: string, urlPath: string -> string)
    ensures GetFileIdentifier(root, urlPath, "/static/../words-en.txt") == None
  {
    var path := "/static/../words-en.txt";
    assert OccursAt(path[1..], "..", 7);
  }

  /**
   * The range arithmetic of `loadFile(id:range:context:)`: the bytes from the
   * lower bound through the upper bound, cut short at the last byte. A
   * closed range always has `lower <= upper`. When the lower bound is not an
   * index of the data, the subscript traps; that outcome is `None` here.
   */
  function LoadRange(data: seq<bv8>, lower: int, upper: int): (r: Option<seq<bv8>>)
    requires lower <= upper
    ensures r.Some? <==> 0 <= lower < |data|
    ensures r.Some? ==> 1 <= |r.value| <= upper - lower + 1
    ensures r.Some? ==> lower + |r.value| <= |data|
    ensures r.Some? ==> lower + |r.value| == (if upper < |data| - 1 then upper else |data| - 1) + 1
    ensures r.Some? ==> forall i :: 0 <= i < |r.value| ==> r.value[i] == data[lower + i]
  {
    if 0 <= lower < |data| then
      var endIndex := if upper < |data| - 1 then upper else |data| - 1;
      Some(data[lower..endIndex + 1])
    else None
  }

  /** A range that reaches the last byte or beyond gives everything from the lower bound on. */
  lemma LoadRangeClampsAtEnd(data: seq<bv8>, lower: int, upper: int)
    requires 0 <= lower < |data| && |data| - 1 <= upper
    ensures LoadRange(data, lower, upper) == Some(data[lower..])
  {
    var r := LoadRange(data, lower, upper).value;
    assert |r| == |data| - lower;
    assert forall i :: 0 <= i < |r| ==> r[i] == data[lower..][i];
    assert r == data[lower..];
  }

  /** A range that ends inside the data gives exactly the bytes it names. */
  lemma LoadRangeInside(data: seq<bv8>, lower: int, upper: int)
    requires 0 <= lower <= upper < |data|
    ensures LoadRange(data, lower, upper) == Some(data[lower..upper + 1])
  {
    var r := LoadRange(data, lower, upper).value;
    assert |r| == upper - lower + 1;
  }

  /** Two adjacent ranges read the same bytes as the range that spans both. */
  lemma LoadRangeAdjacent(data: seq<bv8>, lower: int, middle: int, upper: int)
    requires 0 <= lower <= middle < upper && middle + 1 < |data|
    ensures LoadRange(data, lower, middle).Some? && LoadRange(data, middle + 1, upper).Some?
    ensures LoadRange(data, lower, middle).value + LoadRange(data, middle + 1, upper).value
            == LoadRange(data, lower, upper).value
  {
    LoadRangeInside(data, lower, middle);
    var end := if upper < |data| - 1 then upper + 1 else |data|;
    assert LoadRange(data, middle + 1, upper).value == data[middle + 1..end];
    assert LoadRange(data, lower, upper).value == data[lower..end];
    assert data[lower..middle + 1] + data[middle + 1..end] == data[lower..end];
  }
}
