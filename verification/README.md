# Dropbox ignore-rule engine, modelled in Dafny

This project models the rule engine of `dropbox/cleanup_dropbox_ignored.py`.
The engine reads a gitignore-like rules file and decides, for every relative
path under a Dropbox folder, whether the path is ignored. The model covers:

- **The line normaliser** of `compile_rules` (module `Patterns`). Each raw
  line is stripped. Blank lines and `#` comments are skipped. A leading `!`
  marks a negated rule and a leading `/` an anchored one. The body is
  lower-cased. The kept rules form `ordered_raw`, in file order.
- **The shape classifier** of `compile_rules` (module `Shapes`). Bodies of
  the form `**/<name>` or `**/<name>/**` become structural tests: an exact
  name, a prefix, a suffix, or one of the four special basename flags
  (`*~`, `#*#`, `._*`, `.#*`). The body `**/**/**` is dropped. Every other
  body goes to the fallback list.
- **The rest of `compile_rules`** (module `Compiler`). It fills the buckets,
  deduplicates the prefix and suffix lists and sorts them longest first. It
  then chooses first-match semantics exactly when no line negates and no
  rule is anchored.
- **`_trusted_match`** (module `Trusted`), the slow reference matcher. It
  cuts the path into pathlib parts and tries every component-boundary
  suffix for unanchored patterns that contain `/`.
- **`_fast_match`** (module `Fast`). It checks the basename and directory
  buckets, then the fallback rules.
- **`is_ignored`** (module `Ignore`). It lower-cases the path and uses the
  fast matcher under first-match semantics. Otherwise it scans every rule
  in file order, re-classifies each rule from its text on the spot, and
  lets the last matching rule decide.
- **Two rules files worked through** (module `Scenarios`): the file
  `**/**/**`, and the file `**/*.log` followed by `!**/keep.log`.

`PurePosixPath.match` is not modelled. It appears as a parameter
`glob: (seq<string>, string) -> bool`, applied to the path's parts and a
pattern. Every property below therefore holds for every glob primitive. The
model proves three main results:

1. The compiled buckets are exact. `_fast_match` accepts a path if and only
   if some rule of the file matches it under its compiled meaning.
2. For every unanchored rule other than `**/**/**`, the inline
   reclassification inside `is_ignored` gives the rule the meaning the
   compiler gives it.
3. Under first-match semantics, the fast verdict equals the last-match-wins
   verdict. This holds whenever no rule is `**/**/**`.

That last exception is real. The compiler drops `**/**/**` (the source
calls it meaningless). The scan inside `is_ignored` never drops it and hands
it to the trusted matcher instead. `Scenarios.DroppedRuleDiverges` exhibits a
glob primitive under which the two verdicts differ.

Anchored rules are the other case outside result 2. `compile_rules` does
not look at the anchoring when it classifies, so `/**/foo` lands in the
exact-basename bucket like `**/foo`. The scan hands every anchored rule to
the trusted matcher. `Scenarios.AnchoredRuleDiverges` shows the two
readings differ. The bucket entry is never consulted, because an anchored
rule turns first-match semantics off (`Compiler.AnyMatchRulesArePlain`).

Two behaviours of the code are easy to miss:

- `any_match_semantics` is cleared by any line that starts with `!`. A bare
  `!` line clears it too, although it produces no rule.
- `**/**/**` is dropped by the compiler rather than sent to the fallback
  list.

## Model

| member | source | states |
|---|---|---|
| Text.HasGlobMeta | dropbox/cleanup_dropbox_ignored.py:95-99 | true exactly when some character of the string is one of `*`, `?`, `[`, `]` |
| Text.Strip | dropbox/cleanup_dropbox_ignored.py:159 | the stripped line is no longer than the line and neither starts nor ends with whitespace |
| Text.StripSpaceAround | dropbox/cleanup_dropbox_ignored.py:159 | the stripped line is a slice of the line, and everything outside that slice is whitespace |
| Text.Lower | dropbox/cleanup_dropbox_ignored.py:175 | lower-casing keeps the length, maps each character by itself, yields a lower-case string and fixes lower-case strings |
| Text.Split | dropbox/cleanup_dropbox_ignored.py:352 | splitting on `/` gives at least one piece, no piece holds `/`, joining the pieces gives the path back, and there is one piece exactly when the path has no `/` |
| Text.SplitJoin | dropbox/cleanup_dropbox_ignored.py:352 | splitting a `/`-joined list of separator-free pieces gives the pieces back |
| Patterns.ReadMarkers | dropbox/cleanup_dropbox_ignored.py:160-168 | a stripped line is skipped exactly when it is empty or a `#` comment; it is a bare negation exactly when it is `!` followed by only whitespace; an accepted rule is negated exactly when the line starts with `!` |
| Patterns.MakePattern | dropbox/cleanup_dropbox_ignored.py:170-175 | the rule keeps the negation flag and is anchored exactly when the text starts with `/`; its body is the lower-cased text after the whole leading run of `/`; built from stripped text that, unless negated, starts with neither `#` nor `!`, it is lower-case, has no leading `/` and no trailing whitespace, and, if unanchored, has a non-empty body |
| Patterns.RenderedLineReads | dropbox/cleanup_dropbox_ignored.py:158-176 | a normalised rule written as a line contributes exactly that rule to `ordered_raw`, and sets `has_negation` exactly when the rule is negated |
| Patterns.NormalizeRender | dropbox/cleanup_dropbox_ignored.py:158-175 | writing a normalised rule back as a line and normalising that line gives the same rule |
| Patterns.LineNegatesOutcome | dropbox/cleanup_dropbox_ignored.py:159-166 | a line sets `has_negation` exactly when the normaliser reads it as a bare `!` or as a negated rule |
| Patterns.ParseRules | dropbox/cleanup_dropbox_ignored.py:158-176 | `ordered_raw` has at most one rule per line, and every rule in it is in normalised form |
| Patterns.NegatedRuleHasNegatingLine | dropbox/cleanup_dropbox_ignored.py:163-176 | a negated rule in `ordered_raw` implies some line of the file sets `has_negation` |
| Patterns.ParseRulesAppend | dropbox/cleanup_dropbox_ignored.py:158-176 | the rules of a concatenated file are those of the first part followed by those of the second |
| Patterns.LineContribution | dropbox/cleanup_dropbox_ignored.py:158-176 | each line contributes only its own rule, at its own position in `ordered_raw` |
| Patterns.SkippedLineAddsNothing | dropbox/cleanup_dropbox_ignored.py:160-168 | inserting a blank, comment or bare `!` line anywhere leaves `ordered_raw` unchanged |
| Trusted.PosixRoot | dropbox/cleanup_dropbox_ignored.py:306 | a path has a root exactly when it starts with `/`, and the root is a prefix of the path |
| Trusted.PosixParts | dropbox/cleanup_dropbox_ignored.py:306-311 | `p.parts` starts with the root exactly when there is one, and every other part is a non-empty, non-`.` component without `/` |
| Trusted.RelativePathParts | dropbox/cleanup_dropbox_ignored.py:306-311 | a relative path joined from proper components has exactly those components as its parts |
| Trusted.TrustedMatch | dropbox/cleanup_dropbox_ignored.py:297-315 | anchored and slash-free patterns are globbed against the whole path; other patterns match exactly when some component-boundary suffix of the parts matches |
| Trusted.WholePathMatchIsTrusted | dropbox/cleanup_dropbox_ignored.py:306-314 | a glob match of the whole non-empty path is a trusted match whatever the pattern's form |
| Trusted.EmptyPathNeverSuffixMatches | dropbox/cleanup_dropbox_ignored.py:311-315 | a path without parts never matches an unanchored pattern containing `/`, whatever the glob |
| Shapes.ClassifyRender | dropbox/cleanup_dropbox_ignored.py:184-267 | every well-formed structural shape is the classification of its own pattern body, so the classifier loses nothing |
| Shapes.Classify | dropbox/cleanup_dropbox_ignored.py:184-185 | a body that does not start with `**/` is always left to the fallback list |
| Shapes.ClassifyTail | dropbox/cleanup_dropbox_ignored.py:184-267 | a body `**/<tail>` classified as structural is well-formed and is exactly the body of its shape |
| Shapes.DroppedExactly | dropbox/cleanup_dropbox_ignored.py:199-201 | the only body compiled to nothing is `**/**/**` |
| Compiler.FallbackRules | dropbox/cleanup_dropbox_ignored.py:194-196 | the fallback list holds exactly the rules classified as fallback and is no longer than the rule list |
| Compiler.Collect | dropbox/cleanup_dropbox_ignored.py:184-270 | the classification loop's fallback list is the order-preserving selection of the unclassified rules |
| Compiler.CollectHolds | dropbox/cleanup_dropbox_ignored.py:184-267 | after the loop, each bucket or flag holds a shape exactly when some rule has that shape |
| Compiler.SortedUnique | dropbox/cleanup_dropbox_ignored.py:273-276 | the deduplicated, sorted list has no repeats, is ordered longest first and has the same elements as its input |
| Compiler.InsertByLength | dropbox/cleanup_dropbox_ignored.py:273-276 | inserting into a longest-first list keeps it longest first, adds one element and keeps all the others |
| Compiler.HasNegation | dropbox/cleanup_dropbox_ignored.py:163-165 | `has_negation` is set exactly when some line negates |
| Compiler.HasAnchored | dropbox/cleanup_dropbox_ignored.py:170-172 | `has_anchored` is set exactly when some rule is anchored |
| Compiler.Compile | dropbox/cleanup_dropbox_ignored.py:137-294 | first-match semantics exactly when no line negates and no rule is anchored; the four affix lists are duplicate-free and longest first; the fallback list holds the unclassified rules in file order |
| Compiler.CompileBuckets | dropbox/cleanup_dropbox_ignored.py:184-276 | after dedup and sorting, each compiled bucket or flag records a shape exactly when some rule of `ordered_raw` has that shape |
| Compiler.AnyMatchRulesArePlain | dropbox/cleanup_dropbox_ignored.py:278 | under first-match semantics no rule is negated or anchored |
| Compiler.BareNegationForcesFullSemantics | dropbox/cleanup_dropbox_ignored.py:163-168 | a bare negation line (such as `!`) anywhere in the file adds no rule to `ordered_raw` but still sets `has_negation` |
| Patterns.BareBangNegates | dropbox/cleanup_dropbox_ignored.py:163-168 | the line `!` is read as a bare negation and sets `has_negation` |
| Compiler.NegationForcesFullSemantics | dropbox/cleanup_dropbox_ignored.py:278 | once some line sets `has_negation`, first-match semantics is off |
| Fast.Basename | dropbox/cleanup_dropbox_ignored.py:324 | the basename has no `/`, ends the path, and is either the whole path or preceded by a `/`: it is what follows the last `/` |
| Fast.DirParts | dropbox/cleanup_dropbox_ignored.py:351-353 | the directory components have no `/`; there are none when the path has no `/` and at least one otherwise |
| Fast.DirPartsJoin | dropbox/cleanup_dropbox_ignored.py:351-353 | for a path with a `/`, the directory components joined by `/`, then `/` and the basename, give the path back |
| Fast.AnyStartsWith | dropbox/cleanup_dropbox_ignored.py:343-345 | the loop returns true exactly when the basename starts with some prefix of the list |
| Fast.AnyEndsWith | dropbox/cleanup_dropbox_ignored.py:346-348 | the loop returns true exactly when the basename ends with some suffix of the list |
| Fast.AnyPartIn | dropbox/cleanup_dropbox_ignored.py:354-357 | the loop returns true exactly when some directory component is in the exact set |
| Fast.AnyPartStartsWith | dropbox/cleanup_dropbox_ignored.py:358-362 | the nested loops return true exactly when some component starts with some prefix |
| Fast.AnyPartEndsWith | dropbox/cleanup_dropbox_ignored.py:363-367 | the nested loops return true exactly when some component ends with some suffix |
| Fast.AnyTrusted | dropbox/cleanup_dropbox_ignored.py:369-372 | the loop returns true exactly when some fallback rule matches by the matcher passed in (the trusted matcher for the path, in `_fast_match`) |
| Fast.BaseMatch | dropbox/cleanup_dropbox_ignored.py:324-348 | the basename tests succeed exactly when some recorded basename shape or special flag hits the basename |
| Fast.DirMatch | dropbox/cleanup_dropbox_ignored.py:350-367 | the guarded directory loops succeed exactly when some recorded directory shape hits a directory component; the guard only skips work |
| Fast.FastMatch | dropbox/cleanup_dropbox_ignored.py:318-374 | `_fast_match` is true exactly when some recorded shape hits the path or some fallback rule matches it |
| Fast.FastMatchesSomeRule | dropbox/cleanup_dropbox_ignored.py:184-278 | the compiled matcher accepts a path exactly when some rule of the file matches it under its compiled meaning |
| Ignore.DirTestAgrees | dropbox/cleanup_dropbox_ignored.py:405-416 | the scan's directory tests are those of the compiler's directory shape, and a name the compiler leaves to fallback or drops goes to the trusted matcher |
| Ignore.BaseTestAgrees | dropbox/cleanup_dropbox_ignored.py:417-440 | the scan's basename tests are those of the compiler's basename shape, and a name the compiler leaves to fallback goes to the trusted matcher |
| Ignore.InlineMeaning | dropbox/cleanup_dropbox_ignored.py:403-442 | on any directory components and basename, the scan's test of an unanchored body equals the compiled meaning of the body's shape, except for `**/**/**`, which the scan hands to the trusted matcher |
| Ignore.InlineIsRuleMatch | dropbox/cleanup_dropbox_ignored.py:390-444 | for every unanchored rule other than `**/**/**`, the scan's verdict on a path is the rule's compiled meaning |
| Ignore.LastWinsStep | dropbox/cleanup_dropbox_ignored.py:446-447 | one more rule decides the verdict when it matches and leaves the earlier verdict otherwise |
| Ignore.FullScan | dropbox/cleanup_dropbox_ignored.py:389-449 | the scan returns true exactly when the last matching rule is not negated |
| Ignore.IsIgnored | dropbox/cleanup_dropbox_ignored.py:377-449 | the lower-cased path is judged by the fast matcher under first-match semantics and by last-match-wins otherwise |
| Ignore.VerdictIgnoresCase | dropbox/cleanup_dropbox_ignored.py:383 | a path and its lower-cased form get the same verdict |
| Ignore.NoNegationLastWins | dropbox/cleanup_dropbox_ignored.py:446-447 | without negated rules, last-match-wins is the same as some rule matching |
| Ignore.PlainRulesAgree | dropbox/cleanup_dropbox_ignored.py:394-447 | on rules that negate nothing, if two per-rule tests agree rule by rule, then last-match-wins under one holds exactly when some rule passes the other |
| Ignore.AnyMatchParity | dropbox/cleanup_dropbox_ignored.py:377-386 | under first-match semantics, with no `**/**/**` rule, the fast verdict equals the last-match-wins verdict |
| Scenarios.AnchoredRuleDiverges | dropbox/cleanup_dropbox_ignored.py:184-185 | an anchored `/**/<name>` gets the compiled exact-basename meaning, which accepts the path `<name>`, while the scan (lines 403 and 444) hands it to a trusted matcher that rejects it |
| Scenarios.DroppedRuleDiverges | dropbox/cleanup_dropbox_ignored.py:199-201 | for the file `**/**/**` and a glob that accepts everything, the fast matcher rejects `a` while the scan accepts it |
| Ignore.PlainThenNegated | dropbox/cleanup_dropbox_ignored.py:446-447 | with a plain rule followed by a negated one, a path is ignored exactly when the first rule matches and the second does not |
| Scenarios.NegatedRuleOverrides | dropbox/cleanup_dropbox_ignored.py:446-449 | under `**/*.log` then `!**/keep.log`, last-match-wins is chosen, and a name is ignored exactly when it ends in `.log` and is not `keep.log` |

## Left out

- Reading the rules file, `splitlines`, the directory walk, deletion, the
  CLI and the other scripts of the repository. They are I/O or lie outside
  the rule engine. The model takes the file's lines as a sequence.
- `PurePosixPath.match` is a parameter, not a glob implementation. The
  model proves no claim that a fast bucket agrees with real glob semantics.
  All its claims hold for every primitive.
- `Trusted.TrustedMatch`: pathlib's `match` raises `ValueError` for any
  pattern that parses to no parts. Such a pattern can come straight from the
  rule: an empty body (an anchored line made only of `/`), or a body of
  `.` pieces, such as the lines `.` or `/.`. A body like `./.` also raises
  in the suffix loop whenever the path has parts. The model treats the
  primitive as total, so it does not model any of these exceptions.
- `Trusted.AnySuffixMatches`: `PurePosixPath(*parts[i:])` is modelled as
  handing `parts[i:]` to the primitive directly. The model takes it that
  pathlib re-parses those parts into the same parts, and does not prove it.
- `Text.Lower` and `Text.Strip` cover ASCII only. Python's `str.lower` and
  `str.strip` also act on non-ASCII letters and spaces.
- `Compiler.SortedUnique`: the order among equal-length affixes is fixed
  by the model. In the source it follows set iteration order. Only
  duplicate-freeness, length order and membership are stated.
- `FallbackRule` is not a separate type. It carries the same three fields
  as an `ordered_raw` entry, so both are `Patterns.Pattern`.
