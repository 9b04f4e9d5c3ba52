/** `_fast_match`: first-match evaluation of the compiled rules. A path is
    ignored when its basename or one of its directory components hits a
    bucket or special flag, or when a fallback rule matches it by the
    trusted matcher. */
module Fast {
  import opened Text
  import opened Patterns
  import opened Trusted
  import opened Shapes
  import opened Compiler

  /** `rel.rsplit("/", 1)[-1]`: the longest end of the path without `/`,
      that is, the whole path or what follows its last `/`. */
  function Basename(rel: string): (base: string)
    ensures '/' !in base && EndsWith(rel, base)
    ensures |base| < |rel| ==> rel[|rel| - |base| - 1] == '/'
  {
    AfterLast(rel, '/')
  }

  /** `rel.split("/")[:-1]`: the directory components, without the
      basename; none when the path has no `/`. */
  function DirParts(rel: string): (dirs: seq<string>)
    ensures forall i :: 0 <= i < |dirs| ==> '/' !in dirs[i]
    ensures '/' !in rel ==> dirs == []
    ensures '/' in rel ==> |dirs| >= 1
  {
    var parts := Split(rel, '/');
    parts[..|parts| - 1]
  }

  /** The directory components are the pieces before the basename: joined
      by `/` and followed by `/` and the basename, they give the path
      back. */
  lemma DirPartsJoin(rel: string)
    requires '/' in rel
    ensures Join(DirParts(rel), '/') + "/" + Basename(rel) == rel
  {
    var parts := Split(rel, '/');
    var dirs := parts[..|parts| - 1];
    var last := parts[|parts| - 1];
    assert DirParts(rel) == dirs;
    JoinLast(parts, '/');
    PieceAfterSeparator(Join(dirs, '/'), '/', last);
    AfterLastUnique(rel, '/', last);
  }

  /** The test each special flag stands for; `#*#` needs two characters,
      so a lone `#` is not hash-wrapped. */
  predicate SpecialHit(k: SpecialKind, base: string) {
    match k
    case Tilde => EndsWith(base, "~")
    case HashWrapped => StartsWith(base, "#") && EndsWith(base, "#") && |base| >= 2
    case DotUnderscore => StartsWith(base, "._")
    case DotHash => StartsWith(base, ".#")
  }

  /** What a basename shape means for the basename of a path. */
  predicate BaseShapeHit(s: Shape, base: string) {
    match s
    case ExactBasename(n) => base == n
    case PrefixBasename(x) => StartsWith(base, x)
    case SuffixBasename(x) => EndsWith(base, x)
    case Special(k) => SpecialHit(k, base)
    case _ => false
  }

  /** What a directory shape means for the directory components of a path. */
  predicate DirShapeHit(s: Shape, dirs: seq<string>) {
    match s
    case ExactDir(n) => n in dirs
    case PrefixDir(x) => exists i :: 0 <= i < |dirs| && StartsWith(dirs[i], x)
    case SuffixDir(x) => exists i :: 0 <= i < |dirs| && EndsWith(dirs[i], x)
    case _ => false
  }

  /** What a structural shape means for a (lower-case) path. */
  predicate ShapeHit(s: Shape, rel: string)
    requires s.IsFast()
  {
    if s.IsDir() then DirShapeHit(s, DirParts(rel)) else BaseShapeHit(s, Basename(rel))
  }

  /** The trusted matcher applied to a rule. */
  predicate Trusts(glob: Glob, rel: string, p: Pattern) {
    TrustedMatch(glob, rel, p.negated, p.anchored, p.body)
  }

  /** What one rule means once compiled: its shape's test when it has a
      structural shape, nothing when it was dropped, the trusted matcher
      otherwise. */
  predicate RuleMatch(glob: Glob, rel: string, p: Pattern) {
    ShapeMeaning(Classify(p.body), rel, Trusts(glob, rel, p))
  }

  /** The compiled meaning of shape `s` on a path's directory components
      `dirs` and basename `base`; `other` is the trusted matcher's verdict,
      which decides for a fallback rule. */
  predicate MeaningOn(s: Shape, dirs: seq<string>, base: string, other: bool) {
    if s.IsDir() then DirShapeHit(s, dirs)
    else if s.IsFast() then BaseShapeHit(s, base)
    else if s == Dropped then false
    else other
  }

  /** The compiled meaning of shape `s` on the path `rel`. */
  predicate ShapeMeaning(s: Shape, rel: string, other: bool) {
    MeaningOn(s, DirParts(rel), Basename(rel), other)
  }

  /** The declarative reading of `_fast_match`: some recorded shape hits
      the path, or some fallback rule matches it. */
  ghost predicate FastSpec(glob: Glob, rel: string, cr: CompiledRules) {
    || (exists s: Shape :: s.IsFast() && InBucket(cr, s) && ShapeHit(s, rel))
    || (exists i :: 0 <= i < |cr.fallback| && Trusts(glob, rel, cr.fallback[i]))
  }

  /** `for pre in pres: if s.startswith(pre): return True`. */
  method AnyStartsWith(s: string, pres: seq<string>) returns (b: bool)
    ensures b <==> exists i :: 0 <= i < |pres| && StartsWith(s, pres[i])
  {
    var k := 0;
    while k < |pres|
      invariant 0 <= k <= |pres|
      invariant forall i :: 0 <= i < k ==> !StartsWith(s, pres[i])
    {
      if StartsWith(s, pres[k]) {
        return true;
      }
      k := k + 1;
    }
    return false;
  }

  /** `for suf in sufs: if s.endswith(suf): return True`. */
  method AnyEndsWith(s: string, sufs: seq<string>) returns (b: bool)
    ensures b <==> exists i :: 0 <= i < |sufs| && EndsWith(s, sufs[i])
  {
    var k := 0;
    while k < |sufs|
      invariant 0 <= k <= |sufs|
      invariant forall i :: 0 <= i < k ==> !EndsWith(s, sufs[i])
    {
      if EndsWith(s, sufs[k]) {
        return true;
      }
      k := k + 1;
    }
    return false;
  }

  /** `for part in dir_parts: if part in dir_exact: return True`. */
  method AnyPartIn(parts: seq<string>, names: set<string>) returns (b: bool)
    ensures b <==> exists i :: 0 <= i < |parts| && parts[i] in names
  {
    var k := 0;
    while k < |parts|
      invariant 0 <= k <= |parts|
      invariant forall i :: 0 <= i < k ==> parts[i] !in names
    {
      if parts[k] in names {
        return true;
      }
      k := k + 1;
    }
    return false;
  }

  /** The nested loop over directory parts and prefixes. */
  method AnyPartStartsWith(parts: seq<string>, pres: seq<string>) returns (b: bool)
    ensures b <==> exists i, j :: 0 <= i < |parts| && 0 <= j < |pres| && StartsWith(parts[i], pres[j])
  {
    var k := 0;
    while k < |parts|
      invariant 0 <= k <= |parts|
      invariant forall i, j :: 0 <= i < k && 0 <= j < |pres| ==> !StartsWith(parts[i], pres[j])
    {
      var hit := AnyStartsWith(parts[k], pres);
      if hit {
        return true;
      }
      k := k + 1;
    }
    return false;
  }

  /** The nested loop over directory parts and suffixes. */
  method AnyPartEndsWith(parts: seq<string>, sufs: seq<string>) returns (b: bool)
    ensures b <==> exists i, j :: 0 <= i < |parts| && 0 <= j < |sufs| && EndsWith(parts[i], sufs[j])
  {
    var k := 0;
    while k < |parts|
      invariant 0 <= k <= |parts|
      invariant forall i, j :: 0 <= i < k && 0 <= j < |sufs| ==> !EndsWith(parts[i], sufs[j])
    {
      var hit := AnyEndsWith(parts[k], sufs);
      if hit {
        return true;
      }
      k := k + 1;
    }
    return false;
  }

  /** `for r in cr.fallback: if _trusted_match(...): return True`, with
      the trusted matcher for the path passed in as `trusts`. */
  method AnyTrusted(trusts: Pattern -> bool, rules: seq<Pattern>) returns (b: bool)
    ensures b <==> exists i :: 0 <= i < |rules| && trusts(rules[i])
  {
    var k := 0;
    while k < |rules|
      invariant 0 <= k <= |rules|
      invariant forall i :: 0 <= i < k ==> !trusts(rules[i])
    {
      if trusts(rules[k]) {
        return true;
      }
      k := k + 1;
    }
    return false;
  }

  /** The directory-component part of `_fast_match`. */
  method DirMatch(rel: string, cr: CompiledRules) returns (b: bool)
    ensures b <==> exists s: Shape :: s.IsFast() && s.IsDir() && InBucket(cr, s) && DirShapeHit(s, DirParts(rel))
  {
    var dirs := DirParts(rel);
    if (cr.dirExact != {} || |cr.dirPrefix| > 0 || |cr.dirSuffix| > 0) && '/' in rel {
      if cr.dirExact != {} {
        b := AnyPartIn(dirs, cr.dirExact);
        if b {
          var i :| 0 <= i < |dirs| && dirs[i] in cr.dirExact;
          assert DirShapeHit(ExactDir(dirs[i]), dirs);
          return;
        }
      }
      if |cr.dirPrefix| > 0 {
        b := AnyPartStartsWith(dirs, cr.dirPrefix);
        if b {
          var i, j :| 0 <= i < |dirs| && 0 <= j < |cr.dirPrefix| && StartsWith(dirs[i], cr.dirPrefix[j]);
          assert DirShapeHit(PrefixDir(cr.dirPrefix[j]), dirs);
          return;
        }
      }
      if |cr.dirSuffix| > 0 {
        b := AnyPartEndsWith(dirs, cr.dirSuffix);
        if b {
          var i, j :| 0 <= i < |dirs| && 0 <= j < |cr.dirSuffix| && EndsWith(dirs[i], cr.dirSuffix[j]);
          assert DirShapeHit(SuffixDir(cr.dirSuffix[j]), dirs);
          return;
        }
      }
    }
    forall s: Shape | s.IsFast() && s.IsDir() && InBucket(cr, s) && DirShapeHit(s, dirs) ensures false {
      DirHitFound(rel, cr, s);
    }
    b := false;
  }

  /** A directory shape that is recorded and hits the path makes the
      guard of the directory loops pass and one of the loops find it. */
  lemma DirHitFound(rel: string, cr: CompiledRules, s: Shape)
    requires s.IsFast() && s.IsDir() && InBucket(cr, s) && DirShapeHit(s, DirParts(rel))
    ensures (cr.dirExact != {} || |cr.dirPrefix| > 0 || |cr.dirSuffix| > 0) && '/' in rel
    ensures s.ExactDir? ==> exists i :: 0 <= i < |DirParts(rel)| && DirParts(rel)[i] in cr.dirExact
    ensures s.PrefixDir? ==> exists i, j :: 0 <= i < |DirParts(rel)| && 0 <= j < |cr.dirPrefix| &&
                                           StartsWith(DirParts(rel)[i], cr.dirPrefix[j])
    ensures s.SuffixDir? ==> exists i, j :: 0 <= i < |DirParts(rel)| && 0 <= j < |cr.dirSuffix| &&
                                           EndsWith(DirParts(rel)[i], cr.dirSuffix[j])
  {
    var dirs := DirParts(rel);
    match s
    case ExactDir(n) =>
      var i :| 0 <= i < |dirs| && dirs[i] == n;
    case PrefixDir(x) =>
      var i :| 0 <= i < |dirs| && StartsWith(dirs[i], x);
      var j :| 0 <= j < |cr.dirPrefix| && cr.dirPrefix[j] == x;
    case SuffixDir(x) =>
      var i :| 0 <= i < |dirs| && EndsWith(dirs[i], x);
      var j :| 0 <= j < |cr.dirSuffix| && cr.dirSuffix[j] == x;
  }

  /** The basename part of `_fast_match`, in the source's order: exact
      names, the four specials, prefixes, suffixes. */
  method BaseMatch(base: string, cr: CompiledRules) returns (b: bool)
    ensures b <==> exists s: Shape :: s.IsFast() && !s.IsDir() && InBucket(cr, s) && BaseShapeHit(s, base)
  {
    if base in cr.basenameExact {
      assert BaseShapeHit(ExactBasename(base), base);
      return true;
    }
    if cr.basenamePrefixDotUnderscore && StartsWith(base, "._") {
      assert BaseShapeHit(Special(DotUnderscore), base);
      return true;
    }
    if cr.basenamePrefixDotHash && StartsWith(base, ".#") {
      assert BaseShapeHit(Special(DotHash), base);
      return true;
    }
    if cr.basenameEndsWithTilde && EndsWith(base, "~") {
      assert BaseShapeHit(Special(Tilde), base);
      return true;
    }
    if cr.basenameHashWrapped && StartsWith(base, "#") && EndsWith(base, "#") && |base| >= 2 {
      assert BaseShapeHit(Special(HashWrapped), base);
      return true;
    }
    b := AnyStartsWith(base, cr.basenamePrefix);
    if b {
      var i :| 0 <= i < |cr.basenamePrefix| && StartsWith(base, cr.basenamePrefix[i]);
      assert BaseShapeHit(PrefixBasename(cr.basenamePrefix[i]), base);
      return;
    }
    b := AnyEndsWith(base, cr.basenameSuffix);
    if b {
      var i :| 0 <= i < |cr.basenameSuffix| && EndsWith(base, cr.basenameSuffix[i]);
      assert BaseShapeHit(SuffixBasename(cr.basenameSuffix[i]), base);
      return;
    }
    forall s: Shape | s.IsFast() && !s.IsDir() && InBucket(cr, s) && BaseShapeHit(s, base) ensures false {
      BaseHitFound(base, cr, s);
    }
  }

  /** A basename shape that is recorded and hits the path is found by one
      of the basename tests. */
  lemma BaseHitFound(base: string, cr: CompiledRules, s: Shape)
    requires s.IsFast() && !s.IsDir() && InBucket(cr, s) && BaseShapeHit(s, base)
    ensures
      || base in cr.basenameExact
      || (cr.basenamePrefixDotUnderscore && StartsWith(base, "._"))
      || (cr.basenamePrefixDotHash && StartsWith(base, ".#"))
      || (cr.basenameEndsWithTilde && EndsWith(base, "~"))
      || (cr.basenameHashWrapped && StartsWith(base, "#") && EndsWith(base, "#") && |base| >= 2)
      || (exists i :: 0 <= i < |cr.basenamePrefix| && StartsWith(base, cr.basenamePrefix[i]))
      || (exists i :: 0 <= i < |cr.basenameSuffix| && EndsWith(base, cr.basenameSuffix[i]))
  {
    match s
    case PrefixBasename(x) =>
      var j :| 0 <= j < |cr.basenamePrefix| && cr.basenamePrefix[j] == x;
    case SuffixBasename(x) =>
      var j :| 0 <= j < |cr.basenameSuffix| && cr.basenameSuffix[j] == x;
    case _ =>
  }

  /** `_fast_match`: true exactly when some recorded shape hits the path or
      some fallback rule matches it by the trusted matcher. The guard on
      the directory loops only skips work. */
  method FastMatch(glob: Glob, rel: string, cr: CompiledRules) returns (r: bool)
    ensures r <==> FastSpec(glob, rel, cr)
  {
    r := BaseMatch(Basename(rel), cr);
    if r {
      return;
    }
    r := DirMatch(rel, cr);
    if r {
      return;
    }
    r := AnyTrusted(p => Trusts(glob, rel, p), cr.fallback);
  }

  /** Some rule of the list matches the path, each by its compiled meaning. */
  ghost predicate SomeRuleMatches(glob: Glob, rel: string, rules: seq<Pattern>) {
    exists i :: 0 <= i < |rules| && RuleMatch(glob, rel, rules[i])
  }

  /** What compiling guarantees about the buckets and the fallback list,
      stated for any rule list `raw`. */
  ghost predicate CompiledFrom(cr: CompiledRules, raw: seq<Pattern>) {
    && (forall s: Shape :: s.IsFast() ==> (InBucket(cr, s) <==> Classified(Classify, raw, s)))
    && (forall p :: p in cr.fallback <==> p in raw && Classify(p.body) == Fallback)
  }

  lemma CompileIsCompiledFrom(lines: seq<string>)
    ensures CompiledFrom(Compile(lines), Compile(lines).orderedRaw)
  {
    forall s: Shape | s.IsFast()
      ensures InBucket(Compile(lines), s) <==> Classified(Classify, Compile(lines).orderedRaw, s)
    {
      CompileBuckets(lines, s);
    }
  }

  /** The compiled rules are exact: the fast matcher accepts a path if and
      only if some rule of the file matches it, whatever the trusted glob
      primitive does. Sorting and deduplicating the buckets loses nothing. */
  lemma FastMatchesSomeRule(glob: Glob, rel: string, lines: seq<string>)
    ensures FastSpec(glob, rel, Compile(lines)) <==>
            SomeRuleMatches(glob, rel, Compile(lines).orderedRaw)
  {
    var cr := Compile(lines);
    CompileIsCompiledFrom(lines);
    if FastSpec(glob, rel, cr) {
      FastHitHasRule(glob, rel, cr, cr.orderedRaw);
    }
    if SomeRuleMatches(glob, rel, cr.orderedRaw) {
      RuleHitIsFast(glob, rel, cr, cr.orderedRaw);
    }
  }

  lemma FastHitHasRule(glob: Glob, rel: string, cr: CompiledRules, raw: seq<Pattern>)
    requires CompiledFrom(cr, raw)
    requires FastSpec(glob, rel, cr)
    ensures SomeRuleMatches(glob, rel, raw)
  {
    if s: Shape :| s.IsFast() && InBucket(cr, s) && ShapeHit(s, rel) {
      var i :| 0 <= i < |raw| && Classify(raw[i].body) == s;
      assert RuleMatch(glob, rel, raw[i]);
    } else {
      var k :| 0 <= k < |cr.fallback| && Trusts(glob, rel, cr.fallback[k]);
      var p := cr.fallback[k];
      var i :| 0 <= i < |raw| && raw[i] == p;
      assert RuleMatch(glob, rel, raw[i]);
    }
  }

  lemma RuleHitIsFast(glob: Glob, rel: string, cr: CompiledRules, raw: seq<Pattern>)
    requires CompiledFrom(cr, raw)
    requires SomeRuleMatches(glob, rel, raw)
    ensures FastSpec(glob, rel, cr)
  {
    var i :| 0 <= i < |raw| && RuleMatch(glob, rel, raw[i]);
    var s := Classify(raw[i].body);
    if s.IsFast() {
      assert Classified(Classify, raw, s);
      assert InBucket(cr, s) && ShapeHit(s, rel);
    } else {
      assert raw[i] in cr.fallback;
      var k :| 0 <= k < |cr.fallback| && cr.fallback[k] == raw[i];
      assert Trusts(glob, rel, cr.fallback[k]);
    }
  }
}
