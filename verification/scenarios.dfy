// Two rules files worked through end to end: `**/**/**`, where the
// compiled matcher and the scan disagree, and `**/*.log` followed by
// `!**/keep.log`, where the later negated rule wins.
module Scenarios {
  import opened Text
  import opened Patterns
  import opened Trusted
  import opened Shapes
  import opened Compiler
  import opened Fast
  import opened Ignore

  // The rule `**/**/**`, as the normaliser reads its line.
  const DroppedRule := Pattern(false, false, "**/**/**")

  lemma DroppedLineCompiles(lines: seq<string>)
    requires lines == ["**/**/**"]
    ensures Compile(lines).orderedRaw == [DroppedRule]
    ensures Compile(lines).anyMatchSemantics
  {
    DroppedLineReads(lines[0]);
    ParseRulesSingle(lines[0]);
    assert [lines[0]] == lines;
    CompileKeepsRules(lines);
    assert !HasNegation(lines);
  }

  lemma DroppedLineReads(line: string)
    requires line == "**/**/**"
    ensures Emitted(line) == [DroppedRule] && !LineNegates(line)
  {
    assert Render(DroppedRule) == line;
    RenderedLineReads(DroppedRule);
  }

  // Whatever the glob primitive, the fast matcher rejects every path
  // under a rules file whose only rule is `**/**/**`.
  lemma DroppedNeverFast(glob: Glob, rel: string, lines: seq<string>)
    requires ParseRules(lines) == [DroppedRule]
    ensures !FastSpec(glob, rel, Compile(lines))
  {
    DroppedRuleNeverMatches(glob, rel);
    FastMatchesSomeRule(glob, rel, lines);
    CompileKeepsRules(lines);
  }

  lemma DroppedRuleNeverMatches(glob: Glob, rel: string)
    ensures !SomeRuleMatches(glob, rel, [DroppedRule])
  {
    DroppedExactly(DroppedRule.body);
    assert !RuleMatch(glob, rel, DroppedRule);
  }

  // With a primitive that accepts everything, the scan matches `a`.
  lemma DroppedScanMatches(glob: Glob)
    requires forall parts, pat :: glob(parts, pat)
    ensures InlineMatch(glob, "a", DroppedRule)
  {
    RelativePathParts(["a"]);
    assert Join(["a"], '/') == "a";
    assert SuffixMatches(glob, PosixParts("a"), DroppedRule.body, 0);
    InlineMeaning(DroppedRule.body, DirParts("a"), Basename("a"), Trusts(glob, "a", DroppedRule));
    DroppedExactly(DroppedRule.body);
  }

  // `**/**/**` is compiled to nothing, so the fast matcher never matches
  // it, while the scan hands it to the trusted matcher: with a glob
  // primitive that accepts everything, the two verdicts differ on `a`.
  lemma DroppedRuleDiverges(glob: Glob, lines: seq<string>)
    requires lines == ["**/**/**"]
    requires forall parts, pat :: glob(parts, pat)
    ensures Compile(lines).anyMatchSemantics
    ensures !FastSpec(glob, "a", Compile(lines))
    ensures LastWins(InlineMatcher(glob, "a"), Compile(lines).orderedRaw)
  {
    DroppedLineCompiles(lines);
    CompileKeepsRules(lines);
    DroppedNeverFast(glob, "a", lines);
    DroppedScanMatches(glob);
    assert InlineMatcher(glob, "a")([DroppedRule][0]);
  }

  // `compile_rules` files an anchored `/**/<name>` under the same exact
  // basename as the unanchored rule, while the scan hands every anchored
  // rule to the trusted matcher: with a glob primitive that rejects
  // everything, the two readings differ on the path `<name>`. Compiling
  // never uses that bucket entry, since an anchored rule turns off
  // first-match semantics.
  lemma AnchoredRuleDiverges(glob: Glob, n: string)
    requires WellFormed(ExactBasename(n))
    requires forall parts, pat :: !glob(parts, pat)
    ensures RuleMatch(glob, n, Pattern(false, true, Body(ExactBasename(n))))
    ensures !InlineMatch(glob, n, Pattern(false, true, Body(ExactBasename(n))))
  {
    ClassifyRender(ExactBasename(n));
    BasenameOfName(n);
  }

  // The rules file `**/*.log` then `!**/keep.log`.
  const LogRule := Pattern(false, false, "**/*.log")
  const KeepRule := Pattern(true, false, "**/keep.log")

  lemma LogLineReads(line: string)
    requires line == "**/*.log"
    ensures Emitted(line) == [LogRule]
  {
    assert Render(LogRule) == line;
    RenderedLineReads(LogRule);
  }

  lemma KeepLineReads(line: string)
    requires line == "!**/keep.log"
    ensures Emitted(line) == [KeepRule]
  {
    assert Render(KeepRule) == line;
    RenderedLineReads(KeepRule);
  }

  lemma NegationFileParses(lines: seq<string>)
    requires lines == ["**/*.log", "!**/keep.log"]
    ensures ParseRules(lines) == [LogRule, KeepRule]
    ensures LineNegates(lines[1])
  {
    LogLineReads(lines[0]);
    KeepLineReads(lines[1]);
    ParseRulesPair(lines[0], lines[1]);
    assert [lines[0], lines[1]] == lines;
    EmittedNegates(lines[1]);
  }

  /** A path without `/` is its own basename. */
  lemma BasenameOfName(name: string)
    requires '/' !in name
    ensures Basename(name) == name
  {
    AfterLastWhole(name, '/');
  }

  lemma LogRuleMatches(base: string, other: bool)
    requires '/' !in base
    ensures ScanTest(LogRule.body, base, other) <==> EndsWith(base, ".log")
  {
    assert PlainName(".log") && ".log"[0] == '.';
    assert "**/*" + ".log" == LogRule.body;
    SuffixRuleMatches(base, ".log", other);
    BasenameOfName(base);
  }

  lemma KeepIsPlain()
    ensures PlainName("keep.log")
  {
    var n := "keep.log";
    forall i | 0 <= i < |n| ensures !IsGlobMeta(n[i]) && n[i] != '/' {
    }
  }

  lemma KeepRuleMatches(base: string, other: bool)
    requires '/' !in base
    ensures ScanTest(KeepRule.body, base, other) <==> base == "keep.log"
  {
    KeepIsPlain();
    assert "**/" + "keep.log" == KeepRule.body;
    ExactRuleMatches(base, "keep.log", other);
    BasenameOfName(base);
  }

  // Under `**/*.log` then `!**/keep.log`, a name is ignored exactly when
  // it ends in `.log` and is not `keep.log`: the later, negated rule wins.
  lemma ScanVerdict(glob: Glob, base: string)
    requires '/' !in base
    ensures LastWins(InlineMatcher(glob, base), [LogRule, KeepRule]) <==>
            EndsWith(base, ".log") && base != "keep.log"
  {
    LogRuleMatches(base, Trusts(glob, base, LogRule));
    KeepRuleMatches(base, Trusts(glob, base, KeepRule));
    PlainThenNegated(InlineMatcher(glob, base), LogRule, KeepRule);
  }

  // Under the rules file `**/*.log` then `!**/keep.log`, `compile_rules`
  // chooses last-match-wins, and the negation re-includes `keep.log`
  // while every other `.log` name stays ignored.
  lemma NegatedRuleOverrides(glob: Glob, lines: seq<string>)
    requires lines == ["**/*.log", "!**/keep.log"]
    ensures !Compile(lines).anyMatchSemantics
    ensures forall base :: '/' !in base ==>
              (LastWins(InlineMatcher(glob, base), Compile(lines).orderedRaw) <==>
               EndsWith(base, ".log") && base != "keep.log")
  {
    NegationFileParses(lines);
    CompileKeepsRules(lines);
    forall base | '/' !in base
      ensures LastWins(InlineMatcher(glob, base), [LogRule, KeepRule]) <==>
              EndsWith(base, ".log") && base != "keep.log"
    {
      ScanVerdict(glob, base);
    }
  }
}
