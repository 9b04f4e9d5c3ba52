/** The rule-line normaliser of `compile_rules`: each line of the ignore
    file becomes nothing (blank, comment, a bare `!`) or one normalised
    pattern, and the patterns are kept in file order (`ordered_raw`). */
module Patterns {
  import opened Text

  /** One normalised rule: the `(neg, anchored, pat)` triple of `ordered_raw`,
      also the `FallbackRule` record. The body is lower-case and carries
      neither the `!` nor the leading `/` markers. */
  datatype Pattern = Pattern(negated: bool, anchored: bool, body: string)

  /** What one raw line contributes. */
  datatype LineOutcome =
    | Skipped                     // blank line or `#` comment
    | BareNegation                // a `!` with nothing after it
    | Accepted(pattern: Pattern)

  /** The shape every normalised pattern has: lower-case, no leading `/`, no
      trailing whitespace, and, unless anchored, a non-empty body that starts
      with neither whitespace nor (for a plain rule) a comment or negation
      marker. */
  predicate Canonical(p: Pattern) {
    && IsLower(p.body)
    && (p.body == [] || (p.body[0] != '/' && !IsSpace(p.body[|p.body| - 1])))
    && (!p.anchored ==>
          && p.body != []
          && !IsSpace(p.body[0])
          && (!p.negated ==> p.body[0] != '#' && p.body[0] != '!'))
  }

  /** The rule text after the `!`: the anchoring `/` and the body. */
  function Tail(p: Pattern): string {
    (if p.anchored then "/" else "") + p.body
  }

  /** The shortest rule line that denotes `p`. */
  function Render(p: Pattern): string {
    (if p.negated then "!" else "") + Tail(p)
  }

  /** Normalises one raw line the way the loop body of `compile_rules` does:
      strip, skip blanks and comments, then read the markers. */
  function NormalizeLine(raw: string): LineOutcome {
    ReadMarkers(Strip(raw))
  }

  /** The loop body from the stripped line `s` on: a blank or `#` line is
      skipped, a `!` negates, and a `!` with nothing after it is a bare
      negation. */
  function ReadMarkers(s: string): (o: LineOutcome)
    ensures o.Skipped? <==> s == [] || s[0] == '#'
    ensures o.BareNegation? <==> s != [] && s[0] == '!' && Strip(s[1..]) == []
    ensures o.Accepted? ==> (o.pattern.negated <==> s[0] == '!')
  {
    if s == [] || s[0] == '#' then Skipped
    else if s[0] == '!' then AfterNegation(true, Strip(s[1..]))
    else AfterNegation(false, s)
  }

  /** What is left once the `!` (if any) is gone and the rest stripped. */
  function AfterNegation(neg: bool, s1: string): LineOutcome {
    if s1 == [] then BareNegation else Accepted(MakePattern(neg, s1))
  }

  /** The body is the text after its whole leading run of `/`. */
  predicate AfterSlashes(s1: string, k: int) {
    && 0 <= k <= |s1|
    && (forall i :: 0 <= i < k ==> s1[i] == '/')
    && (k < |s1| ==> s1[k] != '/')
  }

  /** Reads the anchoring `/` markers and lower-cases the body: the body is
      the lower-cased text with every leading `/` removed. Built from a
      stripped rule text that, unless negated, starts with neither `#` nor
      `!`, the pattern is canonical. */
  function MakePattern(neg: bool, s1: string): (p: Pattern)
    requires s1 != []
    ensures p.negated == neg && (p.anchored <==> s1[0] == '/')
    ensures exists k :: AfterSlashes(s1, k) && p.body == Lower(s1[k..])
    ensures !IsSpace(s1[0]) && !IsSpace(s1[|s1| - 1]) && (!neg ==> s1[0] != '#' && s1[0] != '!') ==>
              Canonical(p)
  {
    var anchored := s1[0] == '/';
    var rest := if anchored then TrimLeading(s1, '/') else s1;
    SlashRun(s1, rest);
    var body := Lower(rest);
    LoweredCanonical(neg, anchored, s1, rest, body);
    Pattern(neg, anchored, body)
  }

  // A suffix that follows only `/` and does not start with one is what is
  // left after the whole leading run of `/`.
  lemma SlashRun(s1: string, rest: string)
    requires |rest| <= |s1| && rest == s1[|s1| - |rest|..]
    requires forall i :: 0 <= i < |s1| - |rest| ==> s1[i] == '/'
    requires rest == [] || rest[0] != '/'
    ensures AfterSlashes(s1, |s1| - |rest|)
  {
  }

  // Lower-casing the text after the slashes keeps a canonical shape: the
  // body's end characters are the lower-cased end characters of the text.
  lemma LoweredCanonical(neg: bool, anchored: bool, s1: string, rest: string, body: string)
    requires s1 != [] && (anchored <==> s1[0] == '/') && (!anchored ==> rest == s1)
    requires |rest| <= |s1| && rest == s1[|s1| - |rest|..]
    requires rest == [] || rest[0] != '/'
    requires |body| == |rest| && IsLower(body)
    requires rest != [] ==>
               body[0] == LowerChar(rest[0]) && body[|body| - 1] == LowerChar(rest[|rest| - 1])
    ensures !IsSpace(s1[0]) && !IsSpace(s1[|s1| - 1]) && (!neg ==> s1[0] != '#' && s1[0] != '!') ==>
              Canonical(Pattern(neg, anchored, body))
  {
    if rest != [] {
      assert rest[|rest| - 1] == s1[|s1| - 1];
    }
  }

  /** Reading the markers of a canonical pattern's rendering gives it back. */
  lemma MakePatternRender(p: Pattern)
    requires Canonical(p)
    requires p.anchored || p.body != []
    ensures MakePattern(p.negated, Tail(p)) == p
  {
    var tail := Tail(p);
    if p.anchored {
      assert tail[1..] == p.body;
      assert TrimLeading(tail, '/') == TrimLeading(p.body, '/');
    }
  }

  /** The tail of a canonical pattern is non-empty and stripped, and starts
      with a marker only when the rule is negated. */
  lemma TailShape(p: Pattern)
    requires Canonical(p)
    ensures Tail(p) != [] && !IsSpace(Tail(p)[0]) && !IsSpace(Tail(p)[|Tail(p)| - 1])
    ensures !p.negated ==> Tail(p)[0] != '#' && Tail(p)[0] != '!'
  {
  }

  /** The rendering of a canonical pattern is already stripped. */
  lemma RenderStripped(p: Pattern)
    requires Canonical(p)
    ensures Strip(Render(p)) == Render(p)
  {
    TailShape(p);
    var line := Render(p);
    assert line != [] && !IsSpace(line[0]) && !IsSpace(line[|line| - 1]);
    StripTrimmed(line);
  }

  lemma ReadMarkersBang(tail: string)
    requires tail != [] && !IsSpace(tail[0]) && !IsSpace(tail[|tail| - 1])
    ensures ReadMarkers("!" + tail) == AfterNegation(true, tail)
  {
    assert ("!" + tail)[1..] == tail;
    StripTrimmed(tail);
  }

  lemma ReadMarkersPlain(tail: string)
    requires tail != [] && tail[0] != '#' && tail[0] != '!'
    ensures ReadMarkers(tail) == AfterNegation(false, tail)
  {
  }

  /** Reading the `!` marker of a canonical pattern's rendering. */
  lemma ReadMarkersRender(p: Pattern)
    requires Canonical(p)
    ensures ReadMarkers(Render(p)) == AfterNegation(p.negated, Tail(p))
  {
    TailShape(p);
    var tail := Tail(p);
    if p.negated {
      ReadMarkersBang(tail);
    } else {
      assert Render(p) == tail;
      ReadMarkersPlain(tail);
    }
  }

  /** Normalising the rendering of a normalised pattern gives it back: every
      pattern `NormalizeLine` produces is a fixed point of render-then-parse. */
  lemma NormalizeRender(p: Pattern)
    requires Canonical(p)
    ensures Strip(Render(p)) == Render(p)
    ensures NormalizeLine(Render(p)) == Accepted(p)
  {
    RenderStripped(p);
    ReadMarkersRender(p);
    MakePatternRender(p);
    TailShape(p);
    assert NormalizeLine(Render(p)) == ReadMarkers(Render(p));
    assert AfterNegation(p.negated, Tail(p)) == Accepted(MakePattern(p.negated, Tail(p)));
  }

  /** The rendering of a normalised pattern, as a line of the rules file,
      contributes exactly that pattern, and negates exactly when it is
      negated. */
  lemma RenderedLineReads(p: Pattern)
    requires Canonical(p)
    ensures Emitted(Render(p)) == [p]
    ensures LineNegates(Render(p)) <==> p.negated
  {
    NormalizeRender(p);
    LineNegatesOutcome(Render(p));
  }

  /** True when the stripped line starts with `!`, whether or not a pattern
      follows: this is what sets `has_negation`. */
  predicate LineNegates(raw: string) {
    var s := Strip(raw);
    s != [] && s[0] == '!'
  }

  /** The flag agrees with the normaliser: a line negates exactly when it
      is a bare `!` or yields a negated rule. */
  lemma LineNegatesOutcome(raw: string)
    ensures LineNegates(raw) <==>
              NormalizeLine(raw).BareNegation? ||
              (NormalizeLine(raw).Accepted? && NormalizeLine(raw).pattern.negated)
  {
  }

  /** The rules one line contributes: none, or its accepted pattern. */
  function Emitted(raw: string): (r: seq<Pattern>)
    ensures r == [] <==> !NormalizeLine(raw).Accepted?
    ensures r != [] ==> r == [NormalizeLine(raw).pattern]
  {
    match NormalizeLine(raw)
    case Accepted(p) => [p]
    case _ => []
  }

  /** `ordered_raw`: the accepted patterns of the lines, in file order. */
  function ParseRules(lines: seq<string>): (rules: seq<Pattern>)
    ensures |rules| <= |lines|
    ensures forall i :: 0 <= i < |rules| ==> Canonical(rules[i])
  {
    if |lines| == 0 then
      []
    else
      EmittedCanonical(lines[0]);
      Emitted(lines[0]) + ParseRules(lines[1..])
  }

  // Every rule a line emits is in normalised form.
  lemma EmittedCanonical(raw: string)
    ensures forall i :: 0 <= i < |Emitted(raw)| ==> Canonical(Emitted(raw)[i])
  {
    MarkersCanonical(Strip(raw));
  }

  // A stripped line that is accepted yields a normalised pattern.
  lemma MarkersCanonical(s: string)
    requires s == [] || (!IsSpace(s[0]) && !IsSpace(s[|s| - 1]))
    ensures ReadMarkers(s).Accepted? ==> Canonical(ReadMarkers(s).pattern)
  {
    if s != [] && s[0] == '!' {
      var s1 := Strip(s[1..]);
      if s1 != [] {
        assert ReadMarkers(s) == Accepted(MakePattern(true, s1));
      }
    }
  }

  /** A line whose own rule is negated negates. */
  lemma EmittedNegates(raw: string)
    requires |Emitted(raw)| > 0 && Emitted(raw)[0].negated
    ensures LineNegates(raw)
  {
    LineNegatesOutcome(raw);
  }

  /** A line that is only `!` emits no rule, yet negates. */
  lemma BareBangNegates()
    ensures NormalizeLine("!") == BareNegation && LineNegates("!")
  {
    StripTrimmed("!");
  }

  /** Some line negates, and so sets `has_negation`, whenever some rule is
      negated. */
  lemma {:induction false} NegatedRuleHasNegatingLine(lines: seq<string>, i: int)
    requires 0 <= i < |ParseRules(lines)| && ParseRules(lines)[i].negated
    ensures exists j :: 0 <= j < |lines| && LineNegates(lines[j])
  {
    var n := |Emitted(lines[0])|;
    ParseRulesCons(lines);
    if i < n {
      assert LineNegates(lines[0]) by {
        assert Emitted(lines[0])[i] == ParseRules(lines)[i];
        EmittedNegates(lines[0]);
      }
    } else {
      assert ParseRules(lines[1..])[i - n] == ParseRules(lines)[i];
      NegatedRuleHasNegatingLine(lines[1..], i - n);
      ExistsInTail(lines, LineNegates);
    }
  }

  // A witness in the tail of a list is a witness in the list.
  lemma ExistsInTail(lines: seq<string>, P: string -> bool)
    requires |lines| > 0
    requires exists j :: 0 <= j < |lines[1..]| && P(lines[1..][j])
    ensures exists j :: 0 <= j < |lines| && P(lines[j])
  {
    var j :| 0 <= j < |lines[1..]| && P(lines[1..][j]);
    assert lines[1..][j] == lines[j + 1];
  }

  // Some line has `P` exactly when the first does or some later one does.
  lemma ExistsCons(lines: seq<string>, P: string -> bool)
    requires |lines| > 0
    ensures (exists j :: 0 <= j < |lines| && P(lines[j])) <==>
              P(lines[0]) || exists j :: 0 <= j < |lines[1..]| && P(lines[1..][j])
  {
    if exists j :: 0 <= j < |lines[1..]| && P(lines[1..][j]) {
      ExistsInTail(lines, P);
    }
    if exists j :: 0 <= j < |lines| && P(lines[j]) {
      var j :| 0 <= j < |lines| && P(lines[j]);
      if j > 0 {
        assert lines[1..][j - 1] == lines[j];
      }
    }
  }

  // One step of the definition: the first line's rules, then the rest's.
  lemma ParseRulesCons(lines: seq<string>)
    requires |lines| > 0
    ensures ParseRules(lines) == Emitted(lines[0]) + ParseRules(lines[1..])
  {
  }

  /** Rules from earlier lines come before rules from later lines. */
  lemma {:induction false} ParseRulesAppend(a: seq<string>, b: seq<string>)
    ensures ParseRules(a + b) == ParseRules(a) + ParseRules(b)
    decreases |a|
  {
    if |a| > 0 {
      assert (a + b)[0] == a[0] && (a + b)[1..] == a[1..] + b;
      ParseRulesAppend(a[1..], b);
      assert ParseRules(a + b) == Emitted(a[0]) + ParseRules(a[1..] + b);
    } else {
      assert a + b == b;
    }
  }

  /** A line contributes its own rules, and only those, at its position:
      blank lines, comment lines and a bare `!` contribute nothing, any other
      line exactly its pattern. */
  lemma LineContribution(a: seq<string>, raw: string, b: seq<string>)
    ensures ParseRules(a + [raw] + b) == ParseRules(a) + Emitted(raw) + ParseRules(b)
  {
    ParseRulesAppend(a + [raw], b);
    ParseRulesAppend(a, [raw]);
    ParseRulesSingle(raw);
  }

  /** Inserting a blank line, a comment line or a bare `!` anywhere leaves
      the rule list unchanged. */
  lemma SkippedLineAddsNothing(a: seq<string>, raw: string, b: seq<string>)
    requires !NormalizeLine(raw).Accepted?
    ensures ParseRules(a + [raw] + b) == ParseRules(a + b)
  {
    LineContribution(a, raw, b);
    ParseRulesAppend(a, b);
    assert Emitted(raw) == [];
    assert ParseRules(a) + [] == ParseRules(a);
  }

  lemma ParseRulesSingle(raw: string)
    ensures ParseRules([raw]) == Emitted(raw)
  {
    assert ParseRules([raw]) == Emitted(raw) + ParseRules([]);
  }

  /** A two-line file contributes the rules of its lines, in order. */
  lemma ParseRulesPair(a: string, b: string)
    ensures ParseRules([a, b]) == Emitted(a) + Emitted(b)
  {
    assert [a, b][1..] == [b];
    ParseRulesSingle(b);
  }
}
