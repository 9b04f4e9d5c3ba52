/** `compile_rules`: the normalised rules, in file order, are sorted into
    structural buckets, special flags and a fallback list; the prefix and
    suffix buckets are then deduplicated and ordered longest first. */
module Compiler {
  import opened Text
  import opened Patterns
  import opened Shapes

  /** The accumulators of the compile loop, before dedup and sorting. */
  datatype Buckets = Buckets(
    basenameExact: set<string>,
    basenamePrefix: seq<string>,
    basenameSuffix: seq<string>,
    tilde: bool,
    hashWrapped: bool,
    dotUnderscore: bool,
    dotHash: bool,
    dirExact: set<string>,
    dirPrefix: seq<string>,
    dirSuffix: seq<string>,
    fallback: seq<Pattern>)

  const NoBuckets := Buckets({}, [], [], false, false, false, false, {}, [], [], [])

  /** The structural shape `s` has been recorded in its own bucket. */
  predicate Holds(b: Buckets, s: Shape) {
    match s
    case ExactBasename(n) => n in b.basenameExact
    case PrefixBasename(x) => x in b.basenamePrefix
    case SuffixBasename(x) => x in b.basenameSuffix
    case ExactDir(n) => n in b.dirExact
    case PrefixDir(x) => x in b.dirPrefix
    case SuffixDir(x) => x in b.dirSuffix
    case Special(k) =>
      (match k
       case Tilde => b.tilde
       case HashWrapped => b.hashWrapped
       case DotUnderscore => b.dotUnderscore
       case DotHash => b.dotHash)
    case Dropped => false
    case Fallback => false
  }

  /** One iteration of the classification part of the compile loop. */
  function Record(b: Buckets, p: Pattern, shape: Shape): (b': Buckets)
    ensures b'.fallback == b.fallback + (if shape == Fallback then [p] else [])
  {
    match shape
    case ExactBasename(n) => b.(basenameExact := b.basenameExact + {n})
    case PrefixBasename(x) => b.(basenamePrefix := b.basenamePrefix + [x])
    case SuffixBasename(x) => b.(basenameSuffix := b.basenameSuffix + [x])
    case ExactDir(n) => b.(dirExact := b.dirExact + {n})
    case PrefixDir(x) => b.(dirPrefix := b.dirPrefix + [x])
    case SuffixDir(x) => b.(dirSuffix := b.dirSuffix + [x])
    case Special(k) =>
      (match k
       case Tilde => b.(tilde := true)
       case HashWrapped => b.(hashWrapped := true)
       case DotUnderscore => b.(dotUnderscore := true)
       case DotHash => b.(dotHash := true))
    case Dropped => b
    case Fallback => b.(fallback := b.fallback + [p])
  }

  /** Recording a rule adds its own shape to the buckets and nothing else. */
  lemma RecordHolds(b: Buckets, p: Pattern, shape: Shape, s: Shape)
    requires s.IsFast()
    ensures Holds(Record(b, p, shape), s) <==> Holds(b, s) || shape == s
  {
    if shape == s {
      RecordAdds(b, p, s);
    } else {
      RecordKeeps(b, p, shape, s);
    }
  }

  lemma RecordAdds(b: Buckets, p: Pattern, s: Shape)
    requires s.IsFast()
    ensures Holds(Record(b, p, s), s)
  {
  }

  lemma RecordKeeps(b: Buckets, p: Pattern, shape: Shape, s: Shape)
    requires shape != s
    ensures Holds(Record(b, p, shape), s) <==> Holds(b, s)
  {
  }

  // The loop below is written for any classifier of pattern bodies;
  // `Compile` runs it with `Classify`. Its properties do not depend on how
  // bodies are classified, only on which shape each rule gets.

  /** Some rule is classified as `s`. */
  predicate Classified(classify: string -> Shape, rules: seq<Pattern>, s: Shape) {
    exists i :: 0 <= i < |rules| && classify(rules[i].body) == s
  }

  /** The rules left to the trusted matcher, in their original order. */
  function FallbackRules(classify: string -> Shape, rules: seq<Pattern>): (r: seq<Pattern>)
    ensures forall p :: p in r <==> p in rules && classify(p.body) == Fallback
    ensures |r| <= |rules|
  {
    if |rules| == 0 then []
    else
      var init := rules[..|rules| - 1];
      var last := rules[|rules| - 1];
      assert rules == init + [last];
      FallbackRules(classify, init) + (if classify(last.body) == Fallback then [last] else [])
  }

  /** The classification loop over all rules: the fallback list is the
      order-preserving selection of the unclassified rules. */
  function Collect(classify: string -> Shape, rules: seq<Pattern>): (b: Buckets)
    ensures b.fallback == FallbackRules(classify, rules)
  {
    if |rules| == 0 then NoBuckets
    else
      var last := rules[|rules| - 1];
      Record(Collect(classify, rules[..|rules| - 1]), last, classify(last.body))
  }

  /** After the classification loop, a structural shape is recorded exactly
      when some rule has it. */
  lemma {:induction false} CollectHolds(classify: string -> Shape, rules: seq<Pattern>, s: Shape)
    requires s.IsFast()
    ensures Holds(Collect(classify, rules), s) <==> Classified(classify, rules, s)
  {
    if |rules| > 0 {
      var init := rules[..|rules| - 1];
      var last := rules[|rules| - 1];
      CollectHolds(classify, init, s);
      RecordHolds(Collect(classify, init), last, classify(last.body), s);
      ClassifiedSnoc(classify, init, last, s);
      assert rules == init + [last];
    }
  }

  /** A rule appended at the end is classified on its own. */
  lemma ClassifiedSnoc(classify: string -> Shape, init: seq<Pattern>, last: Pattern, s: Shape)
    ensures Classified(classify, init + [last], s) <==>
              Classified(classify, init, s) || classify(last.body) == s
  {
    var rules := init + [last];
    assert forall i :: 0 <= i < |init| ==> rules[i] == init[i];
    assert rules[|init|] == last;
  }

  predicate NoDup(xs: seq<string>) {
    forall i, j :: 0 <= i < j < |xs| ==> xs[i] != xs[j]
  }

  /** Longest first (`key=len, reverse=True`). */
  predicate ByLengthDesc(xs: seq<string>) {
    forall i, j :: 0 <= i < j < |xs| ==> |xs[i]| >= |xs[j]|
  }

  /** Inserts `x` in front of the first strictly shorter element. */
  function InsertByLength(x: string, xs: seq<string>): (r: seq<string>)
    requires ByLengthDesc(xs)
    ensures ByLengthDesc(r)
    ensures |r| == |xs| + 1
    ensures forall y :: y in r <==> y == x || y in xs
  {
    if |xs| == 0 then [x]
    else if |xs[0]| < |x| then [x] + xs
    else
      var rest := InsertByLength(x, xs[1..]);
      InsertBehindHead(xs[0], xs[1..], x, rest);
      [xs[0]] + rest
  }

  /** Putting a head no shorter than anything in `rest` in front of it keeps
      the order. */
  lemma InsertBehindHead(h: string, tail: seq<string>, x: string, rest: seq<string>)
    requires ByLengthDesc([h] + tail) && ByLengthDesc(rest)
    requires |x| <= |h|
    requires forall y :: y in rest <==> y == x || y in tail
    ensures ByLengthDesc([h] + rest)
  {
    var r := [h] + rest;
    forall k | 0 < k < |r| ensures |r[k]| <= |h| {
      assert r[k] == rest[k - 1];
      assert rest[k - 1] in rest;
      if rest[k - 1] != x {
        var t :| 0 <= t < |tail| && tail[t] == rest[k - 1];
        assert ([h] + tail)[0] == h && ([h] + tail)[t + 1] == tail[t];
      }
    }
  }

  /** Inserting a new element into a list without duplicates keeps it
      without duplicates. */
  lemma {:induction false} InsertByLengthNoDup(x: string, xs: seq<string>)
    requires ByLengthDesc(xs) && NoDup(xs) && x !in xs
    ensures NoDup(InsertByLength(x, xs))
  {
    if |xs| > 0 && |xs[0]| >= |x| {
      assert NoDup(xs[1..]) by {
        forall i, j | 0 <= i < j < |xs[1..]| ensures xs[1..][i] != xs[1..][j] {
          assert xs[1..][i] == xs[i + 1] && xs[1..][j] == xs[j + 1];
        }
      }
      InsertByLengthNoDup(x, xs[1..]);
      var rest := InsertByLength(x, xs[1..]);
      assert xs[0] !in xs[1..];
      assert xs[0] !in rest;
      var r := [xs[0]] + rest;
      forall i, j | 0 <= i < j < |r| ensures r[i] != r[j] {
        assert r[j] == rest[j - 1];
        if i > 0 { assert r[i] == rest[i - 1]; }
        else { assert rest[j - 1] in rest; }
      }
    }
  }

  /** Insertion sort by decreasing length. */
  function SortByLength(xs: seq<string>): (r: seq<string>)
    ensures ByLengthDesc(r)
    ensures |r| == |xs|
    ensures forall y :: y in r <==> y in xs
  {
    if |xs| == 0 then []
    else
      assert forall y :: y in xs <==> y == xs[0] || y in xs[1..];
      InsertByLength(xs[0], SortByLength(xs[1..]))
  }

  /** Sorting a list without duplicates leaves it without duplicates. */
  lemma {:induction false} SortByLengthNoDup(xs: seq<string>)
    requires NoDup(xs)
    ensures NoDup(SortByLength(xs))
  {
    if |xs| > 0 {
      assert NoDup(xs[1..]) by {
        forall i, j | 0 <= i < j < |xs[1..]| ensures xs[1..][i] != xs[1..][j] {
          assert xs[1..][i] == xs[i + 1] && xs[1..][j] == xs[j + 1];
        }
      }
      SortByLengthNoDup(xs[1..]);
      assert xs[0] !in xs[1..] by {
        forall t | 0 <= t < |xs[1..]| ensures xs[1..][t] != xs[0] {
          assert xs[1..][t] == xs[t + 1];
        }
      }
      InsertByLengthNoDup(xs[0], SortByLength(xs[1..]));
    }
  }

  /** `set(xs)` as a list: first occurrences only. */
  function Dedup(xs: seq<string>): (r: seq<string>)
    ensures NoDup(r)
    ensures forall y :: y in r <==> y in xs
  {
    if |xs| == 0 then []
    else
      var init := xs[..|xs| - 1];
      var last := xs[|xs| - 1];
      assert xs == init + [last];
      var d := Dedup(init);
      if last in d then d else d + [last]
  }

  /** `tuple(sorted(set(xs), key=len, reverse=True))`: the distinct elements
      of `xs`, longest first. */
  function SortedUnique(xs: seq<string>): (r: seq<string>)
    ensures NoDup(r) && ByLengthDesc(r)
    ensures forall y :: y in r <==> y in xs
  {
    SortByLengthNoDup(Dedup(xs));
    SortByLength(Dedup(xs))
  }

  /** `has_negation`: some line starts with `!`, even with nothing after it. */
  function HasNegation(lines: seq<string>): (b: bool)
    ensures b <==> exists j :: 0 <= j < |lines| && LineNegates(lines[j])
  {
    if |lines| == 0 then false
    else
      ExistsCons(lines, LineNegates);
      LineNegates(lines[0]) || HasNegation(lines[1..])
  }

  /** `has_anchored`: some rule starts with `/`. */
  function HasAnchored(rules: seq<Pattern>): (b: bool)
    ensures b <==> exists i :: 0 <= i < |rules| && rules[i].anchored
  {
    if |rules| == 0 then false
    else
      assert forall i :: 1 <= i < |rules| ==> rules[i] == rules[1..][i - 1];
      rules[0].anchored || HasAnchored(rules[1..])
  }

  /** `CompiledRules`; `FallbackRule` records are `Pattern`s, which carry the
      same three fields. */
  datatype CompiledRules = CompiledRules(
    anyMatchSemantics: bool,
    basenameExact: set<string>,
    basenamePrefix: seq<string>,
    basenameSuffix: seq<string>,
    basenameEndsWithTilde: bool,
    basenameHashWrapped: bool,
    basenamePrefixDotUnderscore: bool,
    basenamePrefixDotHash: bool,
    dirExact: set<string>,
    dirPrefix: seq<string>,
    dirSuffix: seq<string>,
    fallback: seq<Pattern>,
    orderedRaw: seq<Pattern>)

  /** `compile_rules` on the lines of the rules file. First-match semantics
      is chosen exactly when no line negates and no rule is anchored. */
  function Compile(lines: seq<string>): (cr: CompiledRules)
    ensures |cr.orderedRaw| <= |lines|
    ensures cr.anyMatchSemantics <==>
              (forall j :: 0 <= j < |lines| ==> !LineNegates(lines[j])) &&
              (forall i :: 0 <= i < |cr.orderedRaw| ==> !cr.orderedRaw[i].anchored)
    ensures NoDup(cr.basenamePrefix) && ByLengthDesc(cr.basenamePrefix)
    ensures NoDup(cr.basenameSuffix) && ByLengthDesc(cr.basenameSuffix)
    ensures NoDup(cr.dirPrefix) && ByLengthDesc(cr.dirPrefix)
    ensures NoDup(cr.dirSuffix) && ByLengthDesc(cr.dirSuffix)
    ensures cr.fallback == FallbackRules(Classify, cr.orderedRaw)
  {
    var raw := ParseRules(lines);
    var b := Collect(Classify, raw);
    var anyMatch := !HasNegation(lines) && !HasAnchored(raw);
    var basePrefix := SortedUnique(b.basenamePrefix);
    var baseSuffix := SortedUnique(b.basenameSuffix);
    var dirPrefix := SortedUnique(b.dirPrefix);
    var dirSuffix := SortedUnique(b.dirSuffix);
    CompiledRules(
      anyMatch,
      b.basenameExact, basePrefix, baseSuffix,
      b.tilde, b.hashWrapped, b.dotUnderscore, b.dotHash,
      b.dirExact, dirPrefix, dirSuffix,
      b.fallback,
      raw)
  }

  /** `ordered_raw` holds the rules of the file's lines, in file order. */
  lemma CompileKeepsRules(lines: seq<string>)
    ensures Compile(lines).orderedRaw == ParseRules(lines)
  {
  }

  /** The compiled rules record shape `s`: its name or affix is in its
      bucket, or its special flag is set. */
  predicate InBucket(cr: CompiledRules, s: Shape) {
    match s
    case ExactBasename(n) => n in cr.basenameExact
    case PrefixBasename(x) => x in cr.basenamePrefix
    case SuffixBasename(x) => x in cr.basenameSuffix
    case ExactDir(n) => n in cr.dirExact
    case PrefixDir(x) => x in cr.dirPrefix
    case SuffixDir(x) => x in cr.dirSuffix
    case Special(k) =>
      (match k
       case Tilde => cr.basenameEndsWithTilde
       case HashWrapped => cr.basenameHashWrapped
       case DotUnderscore => cr.basenamePrefixDotUnderscore
       case DotHash => cr.basenamePrefixDotHash)
    case Dropped => false
    case Fallback => false
  }

  /** Every bucket and flag of the compiled rules holds exactly the shapes
      some rule has: nothing is lost by dedup and sorting, nothing added. */
  lemma CompileBuckets(lines: seq<string>, s: Shape)
    requires s.IsFast()
    ensures InBucket(Compile(lines), s) <==> Classified(Classify, Compile(lines).orderedRaw, s)
  {
    var cr := Compile(lines);
    var b := Collect(Classify, ParseRules(lines));
    assert cr.orderedRaw == ParseRules(lines);
    assert Summarizes(cr, b);
    SummarizesBuckets(cr, b, s);
    CollectHolds(Classify, ParseRules(lines), s);
  }

  /** The compiled rules hold the same names and affixes as the buckets of
      the classification loop, and the same special flags. */
  ghost predicate Summarizes(cr: CompiledRules, b: Buckets) {
    && cr.basenameExact == b.basenameExact
    && cr.dirExact == b.dirExact
    && (forall y :: y in cr.basenamePrefix <==> y in b.basenamePrefix)
    && (forall y :: y in cr.basenameSuffix <==> y in b.basenameSuffix)
    && (forall y :: y in cr.dirPrefix <==> y in b.dirPrefix)
    && (forall y :: y in cr.dirSuffix <==> y in b.dirSuffix)
    && cr.basenameEndsWithTilde == b.tilde
    && cr.basenameHashWrapped == b.hashWrapped
    && cr.basenamePrefixDotUnderscore == b.dotUnderscore
    && cr.basenamePrefixDotHash == b.dotHash
  }

  // Compiled rules that summarise the loop's buckets record the same shapes.
  lemma SummarizesBuckets(cr: CompiledRules, b: Buckets, s: Shape)
    requires Summarizes(cr, b)
    ensures InBucket(cr, s) <==> Holds(b, s)
  {
  }

  /** Under first-match semantics every rule is plain: neither negated nor
      anchored. */
  lemma AnyMatchRulesArePlain(lines: seq<string>)
    requires Compile(lines).anyMatchSemantics
    ensures forall i :: 0 <= i < |Compile(lines).orderedRaw| ==>
              !Compile(lines).orderedRaw[i].negated && !Compile(lines).orderedRaw[i].anchored
  {
    var raw := Compile(lines).orderedRaw;
    forall i | 0 <= i < |raw| ensures !raw[i].negated {
      if raw[i].negated {
        NegatedRuleHasNegatingLine(lines, i);
      }
    }
  }

  /** A bare negation line, such as `!`, adds no rule, but still sets
      `has_negation` wherever it appears, and so forces last-match-wins
      semantics. */
  lemma BareNegationForcesFullSemantics(a: seq<string>, raw: string, b: seq<string>)
    requires NormalizeLine(raw) == BareNegation
    ensures ParseRules(a + [raw] + b) == ParseRules(a + b)
    ensures HasNegation(a + [raw] + b)
  {
    SkippedLineAddsNothing(a, raw, b);
    var lines := a + [raw] + b;
    assert lines[|a|] == raw;
    LineNegatesOutcome(raw);
    NegatingLineSetsFlag(lines, |a|);
  }

  // One negating line is enough to set `has_negation`.
  lemma NegatingLineSetsFlag(lines: seq<string>, j: int)
    requires 0 <= j < |lines| && LineNegates(lines[j])
    ensures HasNegation(lines)
  {
  }

  /** A negating line anywhere rules out first-match semantics. */
  lemma NegationForcesFullSemantics(lines: seq<string>)
    requires HasNegation(lines)
    ensures !Compile(lines).anyMatchSemantics
  {
  }
}
