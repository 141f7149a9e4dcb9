/** File names derived from URLs (package util/filex).

    CleanName replaces each of nine characters that file systems refuse with
    an underscore; GetNameFromURL takes the last element of the URL's path
    (with the rules of Go's path.Base) and cleans it. The URL parser itself
    is not modelled: GetNameFromURL receives the outcome of url.Parse, that
    is the decoded path or a parse failure. */
module Filex {
  import opened Wrappers

  /** The characters CleanName replaces: < > : " / \ | ? * */
  predicate Forbidden(c: char) {
    c == '<' || c == '>' || c == ':' || c == '"' || c == '/' || c == '\\' || c == '|' || c == '?' || c == '*'
  }

  /** Why no file name could be derived from a URL. */
  datatype NameError =
    | BadURL       // url.Parse rejected the raw URL
    | NoFileName   // the path has no usable last element

  /** The replacement for one character of a file name. */
  function CleanChar(c: char): char {
    if Forbidden(c) then '_' else c
  }

  /** CleanName: every forbidden character becomes '_', every other character
      is kept, so the length is kept too. Its error result is always nil, so
      the model returns the name alone. */
  function CleanName(text: string): (r: string)
    ensures |r| == |text|
    ensures forall i :: 0 <= i < |r| ==> !Forbidden(r[i])
    ensures forall i :: 0 <= i < |text| && !Forbidden(text[i]) ==> r[i] == text[i]
    ensures forall i :: 0 <= i < |text| && Forbidden(text[i]) ==> r[i] == '_'
  {
    if text == [] then [] else [CleanChar(text[0])] + CleanName(text[1..])
  }

  /** Cleaning a clean name changes nothing. */
  lemma {:induction false} CleanNameIdempotent(text: string)
    ensures CleanName(CleanName(text)) == CleanName(text)
  {
    var once := CleanName(text);
    var twice := CleanName(once);
    assert |twice| == |once|;
    forall i | 0 <= i < |once| ensures twice[i] == once[i] {
      assert !Forbidden(once[i]);
    }
  }

  predicate AllSlashes(p: string) {
    forall i :: 0 <= i < |p| ==> p[i] == '/'
  }

  /** The path with its trailing slashes removed. */
  function TrimTrailingSlashes(p: string): (r: string)
    ensures r <= p
    ensures r == [] || r[|r| - 1] != '/'
    ensures AllSlashes(p[|r|..])
  {
    if p != [] && p[|p| - 1] == '/' then TrimTrailingSlashes(p[..|p| - 1]) else p
  }

  /** What follows the last slash of the path (all of it when it has none). */
  function AfterLastSlash(p: string): (r: string)
    ensures |r| <= |p| && r == p[|p| - |r|..]
    ensures '/' !in r
    ensures |r| < |p| ==> p[|p| - |r| - 1] == '/'
  {
    if p == [] then []
    else if p[|p| - 1] == '/' then []
    else AfterLastSlash(p[..|p| - 1]) + [p[|p| - 1]]
  }

  /** Go's path.Base: "." for the empty path, "/" for a path of slashes only,
      otherwise the last element once trailing slashes are stripped. */
  function PathBase(p: string): (r: string)
    ensures r != []
    ensures r == "/" <==> p != [] && AllSlashes(p)
    ensures r != "/" ==> '/' !in r
  {
    if p == [] then "."
    else
      var elem := AfterLastSlash(TrimTrailingSlashes(p));
      if elem == [] then "/" else elem
  }

  /** The shape of a path whose last element is `elem`: anything ending in a
      slash (or nothing), then `elem`, then only slashes. */
  predicate EndsWithElement(p: string, dir: string, elem: string, slashes: string) {
    && p == dir + elem + slashes
    && (dir == [] || dir[|dir| - 1] == '/')
    && elem != [] && '/' !in elem
    && AllSlashes(slashes)
  }

  lemma {:induction false} TrimAfterElement(body: string, slashes: string)
    requires body != [] && body[|body| - 1] != '/'
    requires AllSlashes(slashes)
    ensures TrimTrailingSlashes(body + slashes) == body
    decreases |slashes|
  {
    if slashes == [] {
      assert body + slashes == body;
    } else {
      var shorter := slashes[..|slashes| - 1];
      assert (body + slashes)[..|body + slashes| - 1] == body + shorter;
      TrimAfterElement(body, shorter);
    }
  }

  lemma {:induction false} AfterLastSlashOfElement(dir: string, elem: string)
    requires dir == [] || dir[|dir| - 1] == '/'
    requires '/' !in elem
    ensures AfterLastSlash(dir + elem) == elem
    decreases |elem|
  {
    if elem == [] {
      assert dir + elem == dir;
    } else {
      var init, last := elem[..|elem| - 1], elem[|elem| - 1];
      assert last in elem;
      assert '/' !in init by {
        forall c | c in init ensures c in elem {
        }
      }
      calc {
        AfterLastSlash(dir + elem);
        { assert (dir + elem)[..|dir + elem| - 1] == dir + init; }
        AfterLastSlash(dir + init) + [last];
        { AfterLastSlashOfElement(dir, init); }
        init + [last];
        elem;
      }
    }
  }

  /** path.Base returns exactly the last element of a path of that shape. */
  lemma {:induction false} PathBaseIsLastElement(p: string, dir: string, elem: string, slashes: string)
    requires EndsWithElement(p, dir, elem, slashes)
    ensures PathBase(p) == elem
  {
    assert elem[|elem| - 1] in elem;
    TrimAfterElement(dir + elem, slashes);
    AfterLastSlashOfElement(dir, elem);
  }

  /** Every path that is neither empty nor made of slashes only has that
      shape, so the two lemmas above and below cover every path. */
  lemma PathHasLastElement(p: string)
    requires p != [] && !AllSlashes(p)
    ensures exists dir, elem, slashes :: EndsWithElement(p, dir, elem, slashes)
  {
    var body := TrimTrailingSlashes(p);
    var slashes := p[|body|..];
    assert body != [] by {
      assert p == body + slashes;
    }
    var elem := AfterLastSlash(body);
    var dir := body[..|body| - |elem|];
    assert body == dir + elem;
    assert p == body + slashes;
    assert EndsWithElement(p, dir, elem, slashes);
  }

  /** GetNameFromURL: the cleaned last element of the URL's path, or an error
      when url.Parse failed or path.Base gives "/" or ".". */
  function GetNameFromURL(parsedPath: Option<string>): (r: Result<string, NameError>)
    ensures parsedPath.None? ==> r == Failure(BadURL)
    ensures parsedPath.Some? && (parsedPath.value == [] || AllSlashes(parsedPath.value)) ==>
              r == Failure(NoFileName)
    ensures r.Success? ==> r.value != [] && '/' !in r.value
    ensures r.Success? ==> forall i :: 0 <= i < |r.value| ==> !Forbidden(r.value[i])
  {
    match parsedPath
    case None => Failure(BadURL)
    case Some(path) =>
      var fileName := PathBase(path);
      if fileName == "/" || fileName == "." then Failure(NoFileName)
      else Success(CleanName(fileName))
  }

  /** For a path with a last element, GetNameFromURL fails exactly when that
      element is "." and otherwise returns the element, cleaned. */
  lemma GetNameFromURLLastElement(p: string, dir: string, elem: string, slashes: string)
    requires EndsWithElement(p, dir, elem, slashes)
    ensures GetNameFromURL(Some(p)) ==
              if elem == "." then Failure(NoFileName) else Success(CleanName(elem))
  {
    PathBaseIsLastElement(p, dir, elem, slashes);
  }
}
