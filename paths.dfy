// Base-path detection of the fragment loader: `location.pathname` is split
// on '/', empty pieces are dropped, and the first remaining segment is taken
// to be the deployment root ("/cbc/" for a site served under /cbc/).
// The pathname is a parameter here instead of a read of `location`.
module Paths {

  const Slash: char := '/'

  /** Number of occurrences of `c` in `s`. */
  function Count(s: string, c: char): nat
  {
    if s == [] then 0 else (if s[0] == c then 1 else 0) + Count(s[1..], c)
  }

  lemma {:induction false} CountAppend(a: string, b: string, c: char)
    ensures Count(a + b, c) == Count(a, c) + Count(b, c)
  {
    if a != [] {
      assert (a + b)[1..] == a[1..] + b;
      CountAppend(a[1..], b, c);
    } else {
      assert a + b == b;
    }
  }

  lemma {:induction false} CountAbsent(s: string, c: char)
    requires c !in s
    ensures Count(s, c) == 0
  {
    if s != [] {
      CountAbsent(s[1..], c);
    }
  }

  /**
   * JavaScript's `s.split(sep)` for a one-character separator: the pieces
   * between separators, so "" gives [""] and "/a/" gives ["", "a", ""].
   */
  function Split(s: string, sep: char): (parts: seq<string>)
    ensures |parts| == Count(s, sep) + 1
    ensures forall p :: p in parts ==> sep !in p
    decreases |s|
  {
    if s == [] then [[]]
    else
      var rest := Split(s[1..], sep);
      if s[0] == sep then [[]] + rest
      else [[s[0]] + rest[0]] + rest[1..]
  }

  /** JavaScript's `parts.join(sep)`. */
  function Join(parts: seq<string>, sep: char): string
    decreases |parts|
  {
    if parts == [] then []
    else if |parts| == 1 then parts[0]
    else parts[0] + [sep] + Join(parts[1..], sep)
  }

  /** Joining the pieces of a split gives back the original string. */
  lemma {:induction false} JoinSplit(s: string, sep: char)
    ensures Join(Split(s, sep), sep) == s
    decreases |s|
  {
    if s != [] {
      var rest := Split(s[1..], sep);
      JoinSplit(s[1..], sep);
      if s[0] == sep {
        assert ([[]] + rest)[1..] == rest;
        assert s == [sep] + s[1..];
      } else {
        var parts := [[s[0]] + rest[0]] + rest[1..];
        assert parts[1..] == rest[1..];
        if |rest| == 1 {
          assert s == [s[0]] + s[1..];
        } else {
          calc {
            Join(parts, sep);
            [s[0]] + rest[0] + [sep] + Join(rest[1..], sep);
            [s[0]] + (rest[0] + [sep] + Join(rest[1..], sep));
            [s[0]] + Join(rest, sep);
            s;
          }
        }
      }
    }
  }

  /** `parts.filter(Boolean)`: keeps the non-empty strings, in order. */
  function NonEmpty(parts: seq<string>): (kept: seq<string>)
    ensures |kept| <= |parts|
    ensures forall p :: p in kept ==> p != [] && p in parts
    ensures forall p :: p in parts && p != [] ==> p in kept
  {
    if parts == [] then []
    else if parts[0] == [] then NonEmpty(parts[1..])
    else [parts[0]] + NonEmpty(parts[1..])
  }

  /** `filter` on a single piece keeps it exactly when it is non-empty. */
  lemma NonEmptySingleton(p: string)
    ensures NonEmpty([p]) == if p == [] then [] else [p]
  {
    assert [p][1..] == [];
  }

  /** `filter` distributes over concatenation: order and repeats are kept. */
  lemma {:induction false} NonEmptyAppend(a: seq<string>, b: seq<string>)
    ensures NonEmpty(a + b) == NonEmpty(a) + NonEmpty(b)
  {
    if a == [] {
      assert a + b == b;
    } else {
      assert (a + b)[0] == a[0];
      assert (a + b)[1..] == a[1..] + b;
      NonEmptyAppend(a[1..], b);
    }
  }

  /** The non-empty '/'-separated segments of a pathname. */
  function Segments(path: string): (segs: seq<string>)
    ensures forall seg :: seg in segs ==> seg != [] && Slash !in seg
  {
    NonEmpty(Split(path, Slash))
  }

  /**
   * `getBasePath`: "/" when the pathname has no segment, otherwise "/"
   * followed by the first segment and "/".
   */
  function GetBasePath(path: string): (base: string)
    ensures |base| >= 1 && base[0] == Slash && base[|base| - 1] == Slash
  {
    var parts := Segments(path);
    if |parts| == 0 then [Slash]
    else [Slash] + parts[0] + [Slash]
  }

  /** How Segments unfolds on the first character of the pathname. */
  lemma SegmentsCons(path: string)
    requires path != []
    ensures path[0] == Slash ==> Segments(path) == Segments(path[1..])
    ensures path[0] != Slash ==>
      Segments(path) != [] && Segments(path)[0] == [path[0]] + Split(path[1..], Slash)[0]
  {
    var rest := Split(path[1..], Slash);
    if path[0] == Slash {
      assert ([[]] + rest)[0] == [];
      assert ([[]] + rest)[1..] == rest;
    } else {
      var parts := [[path[0]] + rest[0]] + rest[1..];
      assert parts[0] != [];
      assert parts[1..] == rest[1..];
    }
  }

  /** The first piece of a split runs up to the first separator. */
  lemma {:induction false} SplitHead(s: string, sep: char, j: nat)
    requires j <= |s|
    requires forall i :: 0 <= i < j ==> s[i] != sep
    requires j == |s| || s[j] == sep
    ensures Split(s, sep)[0] == s[..j]
  {
    if j > 0 {
      SplitHead(s[1..], sep, j - 1);
      assert s[..j] == [s[0]] + s[1..][..j - 1];
    }
  }

  /** A pathname has no segment exactly when it consists of slashes only. */
  lemma {:induction false} SegmentsEmptyIff(path: string)
    ensures Segments(path) == [] <==> forall i :: 0 <= i < |path| ==> path[i] == Slash
  {
    if path != [] {
      SegmentsCons(path);
      SegmentsEmptyIff(path[1..]);
      if path[0] == Slash {
        assert forall i :: 1 <= i < |path| ==> path[i] == path[1..][i - 1];
      }
    }
  }

  /** `getBasePath` answers "/" exactly for the all-slash pathnames ("", "/", "//"). */
  lemma BasePathRootIff(path: string)
    ensures GetBasePath(path) == "/" <==> forall i :: 0 <= i < |path| ==> path[i] == Slash
  {
    SegmentsEmptyIff(path);
    if Segments(path) != [] {
      assert Segments(path)[0] in Segments(path);
    }
  }

  /** Leading slashes do not change the segments. */
  lemma {:induction false} SegmentsDropSlashes(path: string, k: nat)
    requires k <= |path|
    requires forall i :: 0 <= i < k ==> path[i] == Slash
    ensures Segments(path) == Segments(path[k..])
  {
    if k > 0 {
      SegmentsCons(path);
      var tail := path[1..];
      forall i | 0 <= i < k - 1 ensures tail[i] == Slash {
        assert tail[i] == path[i + 1];
      }
      SegmentsDropSlashes(tail, k - 1);
      assert tail[k - 1..] == path[k..];
    }
  }

  /** A pathname that starts with a non-slash run has that run as first segment. */
  lemma SegmentsLeadingRun(path: string, j: nat)
    requires 0 < j <= |path|
    requires forall i :: 0 <= i < j ==> path[i] != Slash
    requires j == |path| || path[j] == Slash
    ensures Segments(path) != [] && Segments(path)[0] == path[..j]
  {
    SegmentsCons(path);
    var tail := path[1..];
    forall i | 0 <= i < j - 1 ensures tail[i] != Slash {
      assert tail[i] == path[i + 1];
    }
    assert j - 1 == |tail| || tail[j - 1] == Slash;
    SplitHead(tail, Slash, j - 1);
    assert path[..j] == [path[0]] + tail[..j - 1];
  }

  /**
   * Scanning definition of the deployment root: skip the leading slashes
   * (path[..k]), take the run path[k..j] of non-slash characters; the base
   * is "/" + that run + "/".
   */
  lemma BasePathFirstSegment(path: string, k: nat, j: nat)
    requires k < j <= |path|
    requires forall i :: 0 <= i < k ==> path[i] == Slash
    requires forall i :: k <= i < j ==> path[i] != Slash
    requires j == |path| || path[j] == Slash
    ensures Segments(path) != [] && Segments(path)[0] == path[k..j]
    ensures GetBasePath(path) == "/" + path[k..j] + "/"
  {
    SegmentsDropSlashes(path, k);
    var rest := path[k..];
    forall i | 0 <= i < j - k ensures rest[i] != Slash {
      assert rest[i] == path[k + i];
    }
    assert j - k == |rest| || rest[j - k] == Slash;
    SegmentsLeadingRun(rest, j - k);
    assert rest[..j - k] == path[k..j];
  }

  /**
   * Shape of the base: it holds exactly one '/' when it is the root and
   * exactly two otherwise (a segment cannot contain '/'), so a non-root base
   * is at least three characters long.
   */
  lemma BasePathShape(path: string)
    ensures var base := GetBasePath(path);
      Count(base, Slash) == (if base == "/" then 1 else 2) &&
      (base == "/" || |base| >= 3)
  {
    var parts := Segments(path);
    if parts != [] {
      var seg := parts[0];
      assert seg in parts;
      CountAbsent(seg, Slash);
      CountAppend([Slash], seg, Slash);
      CountAppend([Slash] + seg, [Slash], Slash);
    } else {
      assert Count([Slash], Slash) == 1;
    }
  }

  /**
   * The comment at getBasePath says a root-level page such as "/index.html"
   * still yields "/", but the code takes the page name as the deployment
   * root: "/index.html" yields "/index.html/".
   */
  lemma RootPageTakenAsRoot(page: string)
    requires page != [] && Slash !in page
    ensures GetBasePath([Slash] + page) == [Slash] + page + [Slash]
  {
    var path := [Slash] + page;
    forall i | 1 <= i < |path| ensures path[i] != Slash {
      assert path[i] == page[i - 1];
    }
    BasePathFirstSegment(path, 1, |path|);
    assert path[1..|path|] == page;
  }
}
