// How `fetch` turns a candidate string into the path it requests: a
// document-relative candidate is resolved against the directory of the
// current page, and "." segments are removed. The document pathname is
// a parameter, as in Paths.
module Urls {
  import opened Paths
  import opened Candidates

  /** The pathname up to and including its last '/', or "" when it has none. */
  function UpToLastSlash(path: string): (dir: string)
    ensures |dir| <= |path| && dir == path[..|dir|]
    ensures dir != [] ==> dir[|dir| - 1] == Slash
    ensures forall i :: |dir| <= i < |path| ==> path[i] != Slash
  {
    if path == [] then []
    else if path[|path| - 1] == Slash then path
    else UpToLastSlash(path[..|path| - 1])
  }

  /** The directory of the document, against which relative URLs resolve. */
  function DocDir(pathname: string): (dir: string)
    ensures dir != [] && dir[|dir| - 1] == Slash
  {
    var dir := UpToLastSlash(pathname);
    if dir == [] then [Slash] else dir
  }

  /** Drops the "." pieces of a split path, keeping the others in order. */
  function DropDotSegments(parts: seq<string>): (kept: seq<string>)
    ensures forall p :: p in kept ==> p != "." && p in parts
    ensures forall p :: p in parts && p != "." ==> p in kept
  {
    if parts == [] then []
    else if parts[0] == "." then DropDotSegments(parts[1..])
    else [parts[0]] + DropDotSegments(parts[1..])
  }

  /** Dropping "." pieces distributes over concatenation. */
  lemma {:induction false} DropDotSegmentsAppend(a: seq<string>, b: seq<string>)
    ensures DropDotSegments(a + b) == DropDotSegments(a) + DropDotSegments(b)
  {
    if a == [] {
      assert a + b == b;
    } else {
      assert (a + b)[0] == a[0];
      assert (a + b)[1..] == a[1..] + b;
      DropDotSegmentsAppend(a[1..], b);
    }
  }

  /** The path that `fetch(url)` requests from a page at `pathname`. */
  function Resolve(pathname: string, url: string): string
  {
    var target := if Rooted(url) then url else DocDir(pathname) + url;
    Join(DropDotSegments(Split(target, Slash)), Slash)
  }

  /** A split path without "." pieces is left as it is. */
  lemma {:induction false} DropDotSegmentsNone(parts: seq<string>)
    requires "." !in parts
    ensures DropDotSegments(parts) == parts
  {
    if parts != [] {
      assert parts[0] != ".";
      assert "." !in parts[1..];
      DropDotSegmentsNone(parts[1..]);
      assert [parts[0]] + parts[1..] == parts;
    }
  }

  /** A root-relative path without "." segments is requested as written. */
  lemma ResolveRootedPlain(pathname: string, url: string)
    requires Rooted(url) && "." !in Split(url, Slash)
    ensures Resolve(pathname, url) == url
  {
    DropDotSegmentsNone(Split(url, Slash));
    JoinSplit(url, Slash);
  }

  /**
   * A document-relative path is requested under the page's directory; when
   * that combined path has no "." segment it is requested exactly so.
   */
  lemma ResolveRelativePlain(pathname: string, url: string)
    requires !Rooted(url) && "." !in Split(DocDir(pathname) + url, Slash)
    ensures Resolve(pathname, url) == DocDir(pathname) + url
  {
    DropDotSegmentsNone(Split(DocDir(pathname) + url, Slash));
    JoinSplit(DocDir(pathname) + url, Slash);
  }

  /** Splitting at a separator splits the pieces list at the same place. */
  lemma {:induction false} SplitAppend(a: string, b: string, sep: char)
    ensures Split(a + [sep] + b, sep) == Split(a, sep) + Split(b, sep)
  {
    var t := a + [sep] + b;
    if a == [] {
      assert t == [sep] + b && t[1..] == b;
    } else {
      assert t[0] == a[0];
      assert t[1..] == a[1..] + [sep] + b;
      SplitAppend(a[1..], b, sep);
    }
  }

  /** A one-character string that is not the separator is a single piece. */
  lemma SplitOneChar(c: char, sep: char)
    requires c != sep
    ensures Split([c], sep) == [[c]]
  {
    assert [c][1..] == [];
    assert Split([], sep) == [[]];
    assert [c] + [] == [c];
  }

  /** A "./" directly after a directory does not change the request. */
  lemma DotSegmentDropped(dir: string, rest: string)
    requires dir != [] && dir[|dir| - 1] == Slash
    ensures Join(DropDotSegments(Split(dir + "./" + rest, Slash)), Slash)
         == Join(DropDotSegments(Split(dir + rest, Slash)), Slash)
  {
    var d := dir[..|dir| - 1];
    assert dir == d + [Slash];
    assert dir + "./" + rest == d + [Slash] + (['.'] + [Slash] + rest);
    assert dir + rest == d + [Slash] + rest;
    SplitAppend(d, ['.'] + [Slash] + rest, Slash);
    SplitAppend(['.'], rest, Slash);
    SplitAppend(d, rest, Slash);
    SplitOneChar('.', Slash);
    DropDotSegmentsAppend(Split(d, Slash), ["."] + Split(rest, Slash));
    DropDotSegmentsAppend(["."], Split(rest, Slash));
    DropDotSegmentsAppend(Split(d, Slash), Split(rest, Slash));
    assert DropDotSegments(["."]) == [];
  }

  /**
   * Of the five candidates, the first two are one request (the document's
   * directory), the third and fourth are one request (the deployment root),
   * and for the root "/" the third is also the fifth: the loader asks for at
   * most three distinct paths.
   */
  lemma CandidateRequests(pathname: string, name: string)
    ensures var cands := CandidatesFor(GetBasePath(pathname), name);
      && Resolve(pathname, cands[0]) == Resolve(pathname, cands[1])
      && Resolve(pathname, cands[2]) == Resolve(pathname, cands[3])
      && (GetBasePath(pathname) == "/" ==> Resolve(pathname, cands[2]) == Resolve(pathname, cands[4]))
  {
    var base := GetBasePath(pathname);
    var cands := CandidatesFor(base, name);
    var tail := ComponentsDir + name;
    var dir := DocDir(pathname);
    assert cands[0] == tail;
    assert cands[1] == "./" + tail;
    assert dir + cands[1] == dir + "./" + tail;
    DotSegmentDropped(dir, tail);
    assert cands[2] == base + tail;
    assert cands[3] == base + "./" + tail;
    DotSegmentDropped(base, tail);
  }
}
