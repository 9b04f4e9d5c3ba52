/** `is_ignored`: lower-case the path, then either the first-match fast
    matcher or, when some line negates or some rule is anchored, a scan of
    all rules in file order where the last matching rule decides. The scan
    reclassifies each rule from its text on the spot. */
module Ignore {
  import opened Text
  import opened Patterns
  import opened Trusted
  import opened Shapes
  import opened Compiler
  import opened Fast

  // The inline reclassification of one rule in the last-match-wins scan,
  // following the source's branches: only unanchored bodies rooted at
  // `**/` are tested structurally, everything else goes to the trusted
  // matcher.
  predicate InlineMatch(glob: Glob, rel: string, p: Pattern) {
    var other := Trusts(glob, rel, p);
    if p.anchored then other else ScanTest(p.body, rel, other)
  }

  /** The scan's test of an unanchored body on a path. */
  predicate ScanTest(body: string, rel: string, other: bool) {
    ScanOn(body, DirParts(rel), Basename(rel), other)
  }

  /** The scan's test of an unanchored body on a path's directory
      components `dirs` and basename `base`; `other` is the trusted
      matcher's verdict, used when no structural test applies. */
  predicate ScanOn(body: string, dirs: seq<string>, base: string, other: bool) {
    if StartsWith(body, "**/") then
      var tail := body[3..];
      if EndsWith(tail, "/**") && '/' !in DropLast(tail, 3) then DirTest(DropLast(tail, 3), dirs, other)
      else if '/' !in tail then BaseTest(tail, base, other)
      else other
    else other
  }

  /** The directory tests of the scan on the components `dirs`. */
  predicate DirTest(name: string, dirs: seq<string>, other: bool) {
    if !HasGlobMeta(name) then name in dirs
    else if EndsWith(name, "*") && !HasGlobMeta(DropLast(name, 1)) then
      exists i :: 0 <= i < |dirs| && StartsWith(dirs[i], DropLast(name, 1))
    else if StartsWith(name, "*.") && !HasGlobMeta(name[1..]) then
      exists i :: 0 <= i < |dirs| && EndsWith(dirs[i], name[1..])
    else other
  }

  /** The basename tests of the scan on `base`. */
  predicate BaseTest(name: string, base: string, other: bool) {
    if name == "*~" then EndsWith(base, "~")
    else if name == "#*#" then StartsWith(base, "#") && EndsWith(base, "#") && |base| >= 2
    else if name == "._*" then StartsWith(base, "._")
    else if name == ".#*" then StartsWith(base, ".#")
    else if EndsWith(name, ".*") && !HasGlobMeta(DropLast(name, 2)) then StartsWith(base, DropLast(name, 1))
    else if !HasGlobMeta(name) then base == name
    else if StartsWith(name, "*.") && !HasGlobMeta(name[1..]) then EndsWith(base, name[1..])
    else if EndsWith(name, "*") && !HasGlobMeta(DropLast(name, 1)) then StartsWith(base, DropLast(name, 1))
    else other
  }

  /** The scan's directory tests are exactly those of the compiled
      directory shape, except that `**` is left to the trusted matcher. */
  lemma DirTestAgrees(name: string, dirs: seq<string>, other: bool)
    requires '/' !in name
    ensures name != "**" && ClassifyDir(name).IsFast() ==>
              DirTest(name, dirs, other) == DirShapeHit(ClassifyDir(name), dirs)
    ensures name != "**" && !ClassifyDir(name).IsFast() ==>
              ClassifyDir(name) == Fallback && DirTest(name, dirs, other) == other
    ensures name == "**" ==> DirTest(name, dirs, other) == other
  {
    if name == "**" {
      assert name[0] == '*' && name[1] == '*';
      assert DropLast(name, 1)[0] == '*';
    }
  }

  /** The scan's basename tests are exactly those of the compiled basename
      shape. */
  lemma BaseTestAgrees(name: string, base: string, other: bool)
    requires '/' !in name
    ensures ClassifyBase(name).IsFast() ==>
              BaseTest(name, base, other) == BaseShapeHit(ClassifyBase(name), base)
    ensures !ClassifyBase(name).IsFast() ==>
              ClassifyBase(name) == Fallback && BaseTest(name, base, other) == other
  {
  }

  // The scan agrees with the compiled meaning of every unanchored body but
  // `**/**/**`, which compiling drops and the scan hands to the trusted
  // matcher.
  lemma InlineMeaning(body: string, dirs: seq<string>, base: string, other: bool)
    ensures Classify(body) != Dropped ==>
              ScanOn(body, dirs, base, other) == MeaningOn(Classify(body), dirs, base, other)
    ensures Classify(body) == Dropped ==> ScanOn(body, dirs, base, other) == other
  {
    if StartsWith(body, "**/") {
      var tail := body[3..];
      assert Classify(body) == ClassifyTail(tail);
      if EndsWith(tail, "/**") && '/' !in DropLast(tail, 3) {
        var name := DropLast(tail, 3);
        assert ScanOn(body, dirs, base, other) == DirTest(name, dirs, other);
        assert Classify(body) == ClassifyDir(name);
        DirTestAgrees(name, dirs, other);
      } else if '/' !in tail {
        assert ScanOn(body, dirs, base, other) == BaseTest(tail, base, other);
        assert Classify(body) == ClassifyBase(tail);
        BaseTestAgrees(tail, base, other);
      }
    }
  }

  /** Rule by rule, the scan is the compiled meaning on every unanchored
      rule that compiling keeps. */
  lemma InlineIsRuleMatch(glob: Glob, rel: string, p: Pattern)
    requires !p.anchored && Classify(p.body) != Dropped
    ensures InlineMatch(glob, rel, p) == RuleMatch(glob, rel, p)
  {
    InlineMeaning(p.body, DirParts(rel), Basename(rel), Trusts(glob, rel, p));
  }

  /** Last match wins, for a rule matcher `m`: the verdict is that of the
      last rule `m` accepts, ignored when that rule is not negated and not
      ignored when no rule matches. */
  ghost predicate LastWins(m: Pattern -> bool, rules: seq<Pattern>) {
    exists i :: 0 <= i < |rules| && m(rules[i]) && !rules[i].negated &&
      forall j :: i < j < |rules| ==> !m(rules[j])
  }

  /** The scan's per-rule test, as a matcher. */
  function InlineMatcher(glob: Glob, rel: string): Pattern -> bool {
    p => InlineMatch(glob, rel, p)
  }

  /** One more rule either decides (when it matches) or leaves the verdict
      of the earlier rules. */
  lemma LastWinsStep(m: Pattern -> bool, rules: seq<Pattern>, k: nat)
    requires k < |rules|
    ensures LastWins(m, rules[..k + 1]) ==
            if m(rules[k]) then !rules[k].negated else LastWins(m, rules[..k])
  {
    var pre := rules[..k];
    var ext := rules[..k + 1];
    assert forall i :: 0 <= i < k ==> ext[i] == pre[i];
    assert ext[k] == rules[k];
    if m(rules[k]) {
      if LastWins(m, ext) {
        var i :| 0 <= i < |ext| && m(ext[i]) && !ext[i].negated &&
                 forall j :: i < j < |ext| ==> !m(ext[j]);
        assert i == k;
      }
    } else if LastWins(m, pre) {
      var i :| 0 <= i < |pre| && m(pre[i]) && !pre[i].negated &&
               forall j :: i < j < |pre| ==> !m(pre[j]);
      assert m(ext[i]) && !ext[i].negated;
    }
  }

  /** The loop of `is_ignored` under last-match-wins semantics. */
  method FullScan(glob: Glob, rel: string, rules: seq<Pattern>) returns (ignored: bool)
    ensures ignored <==> LastWins(InlineMatcher(glob, rel), rules)
  {
    ignored := false;
    var k := 0;
    while k < |rules|
      invariant 0 <= k <= |rules|
      invariant ignored <==> LastWins(InlineMatcher(glob, rel), rules[..k])
    {
      LastWinsStep(InlineMatcher(glob, rel), rules, k);
      var matched := InlineMatch(glob, rel, rules[k]);
      if matched {
        ignored := !rules[k].negated;
      }
      k := k + 1;
    }
    assert rules[..k] == rules;
  }

  /** The verdict `is_ignored` promises for a path: on the lower-cased
      path, some recorded shape or fallback rule hits it under first-match
      semantics, and the last matching rule is not negated otherwise. */
  ghost predicate Verdict(glob: Glob, relPosix: string, cr: CompiledRules) {
    var rel := Lower(relPosix);
    if cr.anyMatchSemantics then FastSpec(glob, rel, cr)
    else LastWins(InlineMatcher(glob, rel), cr.orderedRaw)
  }

  /** `is_ignored`: the path is lower-cased, then judged by the first-match
      fast matcher when the compiled rules allow it and by the
      last-match-wins scan otherwise. */
  method IsIgnored(glob: Glob, relPosix: string, cr: CompiledRules) returns (r: bool)
    ensures cr.anyMatchSemantics ==> (r <==> FastSpec(glob, Lower(relPosix), cr))
    ensures !cr.anyMatchSemantics ==> (r <==> LastWins(InlineMatcher(glob, Lower(relPosix)), cr.orderedRaw))
    ensures r == Verdict(glob, relPosix, cr)
  {
    var rel := Lower(relPosix);
    if cr.anyMatchSemantics {
      r := FastMatch(glob, rel, cr);
    } else {
      r := FullScan(glob, rel, cr.orderedRaw);
    }
  }

  /** Case does not matter: a path and its lower-cased form get the same
      verdict, as the path is lower-cased on entry. */
  lemma VerdictIgnoresCase(glob: Glob, relPosix: string, cr: CompiledRules)
    ensures Verdict(glob, Lower(relPosix), cr) == Verdict(glob, relPosix, cr)
  {
    LowerIdempotent(relPosix);
  }

  /** Without negated rules, last match wins is any match. */
  lemma {:induction false} NoNegationLastWins(m: Pattern -> bool, rules: seq<Pattern>, k: nat)
    requires k <= |rules|
    requires forall i :: 0 <= i < |rules| ==> !rules[i].negated
    ensures LastWins(m, rules[..k]) <==> exists i :: 0 <= i < k && m(rules[i])
  {
    if k > 0 {
      NoNegationLastWins(m, rules, k - 1);
      LastWinsStep(m, rules, k - 1);
    } else {
      assert rules[..0] == [];
    }
  }

  /** On rules that negate nothing, two matchers that agree rule by rule
      give the same verdict: last match wins under one is some rule
      matching under the other. */
  lemma PlainRulesAgree(m: Pattern -> bool, f: Pattern -> bool, raw: seq<Pattern>)
    requires forall i :: 0 <= i < |raw| ==> !raw[i].negated
    requires forall i :: 0 <= i < |raw| ==> m(raw[i]) == f(raw[i])
    ensures LastWins(m, raw) <==> exists i :: 0 <= i < |raw| && f(raw[i])
  {
    NoNegationLastWins(m, raw, |raw|);
    assert raw[..|raw|] == raw;
  }

  // When `compile_rules` picks first-match semantics and no rule is the
  // dropped `**/**/**`, the fast matcher gives the verdict the
  // last-match-wins scan would give: the shortcut is sound.
  lemma AnyMatchParity(glob: Glob, rel: string, lines: seq<string>)
    requires Compile(lines).anyMatchSemantics
    requires forall i :: 0 <= i < |Compile(lines).orderedRaw| ==>
               Classify(Compile(lines).orderedRaw[i].body) != Dropped
    ensures FastSpec(glob, rel, Compile(lines)) <==>
            LastWins(InlineMatcher(glob, rel), Compile(lines).orderedRaw)
  {
    AnyMatchRulesArePlain(lines);
    FastMatchesSomeRule(glob, rel, lines);
    PlainScanParity(glob, rel, Compile(lines).orderedRaw);
  }

  // On plain, unanchored rules none of which is `**/**/**`, the
  // last-match-wins scan hits exactly when some rule's compiled meaning does.
  lemma PlainScanParity(glob: Glob, rel: string, raw: seq<Pattern>)
    requires forall i :: 0 <= i < |raw| ==> !raw[i].negated && !raw[i].anchored
    requires forall i :: 0 <= i < |raw| ==> Classify(raw[i].body) != Dropped
    ensures LastWins(InlineMatcher(glob, rel), raw) <==> SomeRuleMatches(glob, rel, raw)
  {
    forall i | 0 <= i < |raw|
      ensures InlineMatcher(glob, rel)(raw[i]) == RuleMatch(glob, rel, raw[i])
    {
      InlineIsRuleMatch(glob, rel, raw[i]);
    }
    PlainRulesAgree(InlineMatcher(glob, rel), p => RuleMatch(glob, rel, p), raw);
  }

  // An unanchored rule `**` + `/name` with a literal name matches exactly
  // the paths with that basename.
  lemma ExactRuleMatches(rel: string, n: string, other: bool)
    requires WellFormed(ExactBasename(n))
    ensures ScanTest(Body(ExactBasename(n)), rel, other) <==> Basename(rel) == n
  {
    ClassifyRender(ExactBasename(n));
    InlineMeaning(Body(ExactBasename(n)), DirParts(rel), Basename(rel), other);
  }

  // An unanchored rule `**` + `/*` + suffix matches exactly the paths whose
  // basename ends with the suffix.
  lemma SuffixRuleMatches(rel: string, x: string, other: bool)
    requires WellFormed(SuffixBasename(x))
    ensures ScanTest(Body(SuffixBasename(x)), rel, other) <==> EndsWith(Basename(rel), x)
  {
    ClassifyRender(SuffixBasename(x));
    InlineMeaning(Body(SuffixBasename(x)), DirParts(rel), Basename(rel), other);
  }

  /** With a plain rule followed by a negated one, a path is ignored
      exactly when the first rule matches it and the second does not. */
  lemma PlainThenNegated(m: Pattern -> bool, a: Pattern, b: Pattern)
    requires !a.negated && b.negated
    ensures LastWins(m, [a, b]) <==> m(a) && !m(b)
  {
    var rules := [a, b];
    if m(a) && !m(b) {
      assert m(rules[0]) && !rules[0].negated;
    }
    if LastWins(m, rules) {
      var i :| 0 <= i < |rules| && m(rules[i]) && !rules[i].negated &&
               forall j :: i < j < |rules| ==> !m(rules[j]);
      assert i == 0 && !m(rules[1]);
    }
  }
}
