/** `_trusted_match`: the slow, trusted path of the ignore engine. The glob
    primitive (`PurePosixPath.match`) is not modelled: it is a parameter,
    applied to the parts of a path and a pattern, so every property here
    holds whatever that primitive does. What is modelled is how the path is
    cut into parts and which suffixes of it are handed to the primitive. */
module Trusted {
  import opened Text

  /** `PurePosixPath(parts).match(pattern)`, seen as a function of the parts. */
  type Glob = (seq<string>, string) -> bool

  /** The root POSIX pathlib keeps: `//` for exactly two leading slashes,
      `/` for one or three and more, nothing for a relative path. */
  function PosixRoot(s: string): (root: string)
    ensures root == "" <==> !StartsWith(s, "/")
    ensures root != "" ==> StartsWith(s, root)
  {
    if StartsWith(s, "//") && !StartsWith(s, "///") then "//"
    else if StartsWith(s, "/") then "/"
    else ""
  }

  /** A piece pathlib keeps as a component: not empty, not `.`. */
  predicate IsComponent(piece: string) {
    piece != "" && piece != "."
  }

  /** The pieces that survive pathlib's collapsing of `//` and `/./`, in order. */
  function KeepComponents(pieces: seq<string>): (r: seq<string>)
    ensures forall c :: c in r ==> c in pieces && IsComponent(c)
    ensures forall c :: c in pieces && IsComponent(c) ==> c in r
  {
    if |pieces| == 0 then []
    else
      var rest := KeepComponents(pieces[1..]);
      assert forall c :: c in pieces[1..] ==> c in pieces;
      assert forall c :: c in pieces ==> c == pieces[0] || c in pieces[1..];
      if IsComponent(pieces[0]) then [pieces[0]] + rest else rest
  }

  /** The components of a path: what pathlib keeps after the root. */
  function Components(s: string): (r: seq<string>)
    ensures forall c :: c in r ==> IsComponent(c) && '/' !in c
  {
    KeepComponents(Split(s, '/'))
  }

  /** `PurePosixPath(s).parts`: the root, if any, then the components. */
  function PosixParts(s: string): (parts: seq<string>)
    ensures PosixRoot(s) != "" <==> |parts| > 0 && parts[0] == PosixRoot(s)
    ensures forall i :: (if PosixRoot(s) == "" then 0 else 1) <= i < |parts| ==>
              IsComponent(parts[i]) && '/' !in parts[i]
  {
    var root := PosixRoot(s);
    var comps := Components(s);
    RootThenComponents(root, comps);
    (if root == "" then [] else [root]) + comps
  }

  // The root, if any, followed by proper components: the root is first
  // exactly when there is one, and every later part is a component.
  lemma RootThenComponents(root: string, comps: seq<string>)
    requires forall c :: c in comps ==> IsComponent(c) && '/' !in c
    ensures var parts := (if root == "" then [] else [root]) + comps;
      && (root != "" <==> |parts| > 0 && parts[0] == root)
      && forall i :: (if root == "" then 0 else 1) <= i < |parts| ==>
           IsComponent(parts[i]) && '/' !in parts[i]
  {
    var parts := (if root == "" then [] else [root]) + comps;
    var k := if root == "" then 0 else 1;
    forall i | k <= i < |parts|
      ensures IsComponent(parts[i]) && '/' !in parts[i]
    {
      assert parts[i] == comps[i - k];
    }
    if root == "" && |parts| > 0 {
      assert parts[0] in comps;
    }
  }

  /** Keeping components is the identity on a list of proper components. */
  lemma {:induction false} KeepProperComponents(pieces: seq<string>)
    requires forall i :: 0 <= i < |pieces| ==> IsComponent(pieces[i])
    ensures KeepComponents(pieces) == pieces
  {
    if |pieces| > 0 {
      KeepProperComponents(pieces[1..]);
    }
  }

  /** A relative path written as `c1/c2/.../cn` from proper components has
      exactly those components as its parts. */
  lemma RelativePathParts(comps: seq<string>)
    requires |comps| >= 1
    requires forall i :: 0 <= i < |comps| ==> IsComponent(comps[i]) && '/' !in comps[i]
    ensures PosixParts(Join(comps, '/')) == comps
  {
    SplitJoin(comps, '/');
    KeepProperComponents(comps);
    var s := Join(comps, '/');
    assert s[..|comps[0]|] == comps[0] by { JoinStartsWithFirst(comps, '/'); }
    assert comps[0][0] != '/';
    assert s[0] == comps[0][0];
  }

  lemma JoinStartsWithFirst(parts: seq<string>, sep: char)
    requires |parts| >= 1
    ensures |parts[0]| <= |Join(parts, sep)| && Join(parts, sep)[..|parts[0]|] == parts[0]
  {
    if |parts| > 1 {
      assert Join(parts, sep) == parts[0] + ([sep] + Join(parts[1..], sep));
    }
  }

  /** The primitive accepts the path made of the parts from index `j` on. */
  predicate SuffixMatches(glob: Glob, parts: seq<string>, pat: string, j: int)
    requires 0 <= j <= |parts|
  {
    glob(parts[j..], pat)
  }

  /** The loop of `_trusted_match` over `parts[i:]`, from index `from` on. */
  function AnySuffixMatches(glob: Glob, parts: seq<string>, pat: string, from: nat): (b: bool)
    requires from <= |parts|
    ensures b <==> exists j :: from <= j < |parts| && SuffixMatches(glob, parts, pat, j)
    decreases |parts| - from
  {
    if from == |parts| then false
    else if SuffixMatches(glob, parts, pat, from) then true
    else AnySuffixMatches(glob, parts, pat, from + 1)
  }

  /** `_trusted_match`: an anchored pattern, or one without `/`, is matched
      against the whole path; any other pattern is also tried against every
      suffix of the path that starts at a part boundary. The negation flag
      takes no part. */
  function TrustedMatch(glob: Glob, rel: string, negated: bool, anchored: bool, pat: string): (b: bool)
    ensures anchored || '/' !in pat ==> (b <==> glob(PosixParts(rel), pat))
    ensures !anchored && '/' in pat ==>
              (b <==> exists j :: 0 <= j < |PosixParts(rel)| &&
                                  SuffixMatches(glob, PosixParts(rel), pat, j))
  {
    var p := PosixParts(rel);
    if anchored then glob(p, pat)
    else if '/' !in pat then glob(p, pat)
    else AnySuffixMatches(glob, p, pat, 0)
  }

  /** Whatever the pattern's form, a match of the whole (non-empty) path is a
      trusted match; the suffix loop only ever adds matches. */
  lemma WholePathMatchIsTrusted(glob: Glob, rel: string, negated: bool, anchored: bool, pat: string)
    requires |PosixParts(rel)| > 0 && glob(PosixParts(rel), pat)
    ensures TrustedMatch(glob, rel, negated, anchored, pat)
  {
    var p := PosixParts(rel);
    assert p[0..] == p;
    assert SuffixMatches(glob, p, pat, 0);
  }

  /** The empty path (``, `.`) has no parts, so a slashed unanchored pattern
      never matches it, whatever the primitive says. */
  lemma EmptyPathNeverSuffixMatches(glob: Glob, rel: string, pat: string)
    requires PosixParts(rel) == []
    requires '/' in pat
    ensures !TrustedMatch(glob, rel, false, false, pat)
  {
  }
}
