// `candidatesFor`: the ordered list of URLs at which the loader looks for a
// fragment file. The deployment root computed once at start-up (repoBase) is
// a parameter.
module Candidates {
  import opened Paths

  const ComponentsDir: string := "components/"

  predicate EndsWith(s: string, suffix: string)
  {
    |suffix| <= |s| && s[|s| - |suffix|..] == suffix
  }

  /** A URL path that starts at the site root rather than at the document. */
  predicate Rooted(url: string)
  {
    |url| > 0 && url[0] == Slash
  }

  /**
   * Five candidates, most likely first: document-relative, "./"-relative,
   * under the deployment root, under the deployment root with "./", and
   * under the site root.
   */
  function CandidatesFor(repoBase: string, name: string): (cands: seq<string>)
    ensures |cands| == 5
    ensures forall i :: 0 <= i < |cands| ==> EndsWith(cands[i], ComponentsDir + name)
    ensures !Rooted(cands[0]) && !Rooted(cands[1])
    ensures Rooted(repoBase) ==> forall i :: 2 <= i < |cands| ==> Rooted(cands[i])
  {
    [ ComponentsDir + name,
      "./" + ComponentsDir + name,
      repoBase + ComponentsDir + name,
      repoBase + "./" + ComponentsDir + name,
      "/" + ComponentsDir + name ]
  }

  lemma AppendCancel(a: string, b: string, s: string)
    requires a + s == b + s
    ensures a == b
  {
    assert |a| == |b|;
    assert a == (a + s)[..|a|];
    assert b == (b + s)[..|b|];
  }

  /**
   * For a root that starts with '/', the only repeated URL is the third
   * candidate equalling the fifth, and that happens exactly when the root is
   * "/" itself.
   */
  lemma {:induction false} CandidateDuplicates(repoBase: string, name: string)
    requires Rooted(repoBase)
    ensures var cands := CandidatesFor(repoBase, name);
      forall i, j :: 0 <= i < j < |cands| ==>
        (cands[i] == cands[j] <==> i == 2 && j == 4 && repoBase == "/")
  {
    var cands := CandidatesFor(repoBase, name);
    var tail := ComponentsDir + name;
    assert cands[0][0] == 'c' && cands[1][0] == '.';
    assert cands[2] == repoBase + tail;
    assert cands[3] == repoBase + "./" + tail;
    assert cands[4] == "/" + tail;
    assert |cands[3]| == |cands[2]| + 2;
    assert |cands[4]| == 1 + |tail|;
    if cands[2] == cands[4] {
      AppendCancel(repoBase, "/", tail);
    }
  }

  /** The same, for the root that `getBasePath` derives from a pathname. */
  lemma CandidateDuplicatesForPath(path: string, name: string)
    ensures var cands := CandidatesFor(GetBasePath(path), name);
      forall i, j :: 0 <= i < j < |cands| ==>
        (cands[i] == cands[j] <==>
          i == 2 && j == 4 && forall k :: 0 <= k < |path| ==> path[k] == Slash)
  {
    CandidateDuplicates(GetBasePath(path), name);
    BasePathRootIff(path);
  }
}
