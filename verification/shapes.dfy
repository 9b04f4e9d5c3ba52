/** The shape classifier of `compile_rules`: which normalised pattern bodies
    are turned into a structural test on the basename or on the directory
    components, which are dropped, and which are left to the trusted
    matcher. */
module Shapes {
  import opened Text

  /** The four special basename forms, each switching on one flag. */
  datatype SpecialKind =
    | Tilde          // `*~`
    | HashWrapped    // `#*#`
    | DotUnderscore  // `._*`
    | DotHash        // `.#*`

  /** What a pattern body is compiled to. */
  datatype Shape =
    | ExactBasename(name: string)      // `**/<name>`
    | PrefixBasename(prefix: string)   // `**/<prefix>*`
    | SuffixBasename(suffix: string)   // `**/*<suffix>`, the suffix starting with `.`
    | ExactDir(name: string)           // `**/<name>/**`
    | PrefixDir(prefix: string)        // `**/<prefix>*/**`
    | SuffixDir(suffix: string)        // `**/*<suffix>/**`, the suffix starting with `.`
    | Special(kind: SpecialKind)
    | Dropped                          // `**/**/**`, compiled to nothing
    | Fallback                         // left to the trusted matcher
  {
    /** A shape with a structural test. */
    predicate IsFast() {
      !Dropped? && !Fallback?
    }

    /** A shape tested against the directory components. */
    predicate IsDir() {
      ExactDir? || PrefixDir? || SuffixDir?
    }
  }

  function SpecialName(k: SpecialKind): string {
    match k
    case Tilde => "*~"
    case HashWrapped => "#*#"
    case DotUnderscore => "._*"
    case DotHash => ".#*"
  }

  /** A literal name: no glob metacharacter and no separator. */
  predicate PlainName(n: string) {
    !HasGlobMeta(n) && '/' !in n
  }

  /** The shapes the classifier can produce. A prefix basename may not be
      `._` or `.#` (those are specials), and a suffix always starts with
      `.`, as the `*.` test demands. */
  predicate WellFormed(s: Shape) {
    match s
    case ExactBasename(n) => PlainName(n)
    case PrefixBasename(x) => PlainName(x) && x != "._" && x != ".#"
    case SuffixBasename(x) => PlainName(x) && x != [] && x[0] == '.'
    case ExactDir(n) => PlainName(n)
    case PrefixDir(x) => PlainName(x)
    case SuffixDir(x) => PlainName(x) && x != [] && x[0] == '.'
    case Special(_) => true
    case Dropped => false
    case Fallback => false
  }

  /** The pattern body that denotes a structural shape. */
  function Body(s: Shape): string
    requires s.IsFast()
  {
    match s
    case ExactBasename(n) => "**/" + n
    case PrefixBasename(x) => "**/" + x + "*"
    case SuffixBasename(x) => "**/*" + x
    case ExactDir(n) => "**/" + n + "/**"
    case PrefixDir(x) => "**/" + x + "*/**"
    case SuffixDir(x) => "**/*" + x + "/**"
    case Special(k) => "**/" + SpecialName(k)
  }

  /** `name[:-n]`, for the length `n` of a marker `name` ends with. */
  function DropLast(name: string, n: nat): string
    requires n <= |name|
  {
    name[..|name| - n]
  }

  // The classification of one (lower-case, marker-free) pattern body: only
  // bodies rooted at `**/` can be structural.
  function Classify(pat: string): (s: Shape)
    ensures !StartsWith(pat, "**/") ==> s == Fallback
  {
    if StartsWith(pat, "**/") then ClassifyTail(pat[3..]) else Fallback
  }

  // After the leading `**/`: a tail ending in `/**` is a directory pattern,
  // a tail with another `/` is left to the trusted matcher, anything else is
  // a basename pattern.
  // A structural tail is the rendering of a well-formed shape, less its
  // leading `**/`.
  function ClassifyTail(tail: string): (s: Shape)
    ensures s.IsFast() ==> WellFormed(s) && Body(s) == "**/" + tail
  {
    if EndsWith(tail, "/**") then
      var s := ClassifyDir(DropLast(tail, 3));
      RenderClassifyDir(tail);
      s
    else if '/' in tail then Fallback
    else
      var s := ClassifyBase(tail);
      RenderClassifyBase(tail);
      s
  }

  /** The directory-component branch. */
  function ClassifyDir(name: string): (s: Shape)
    ensures s.IsDir() || s == Dropped || s == Fallback
  {
    if '/' in name then Fallback
    else if name == "**" then Dropped
    else if !HasGlobMeta(name) then ExactDir(name)
    else if EndsWith(name, "*") && !HasGlobMeta(DropLast(name, 1)) then PrefixDir(DropLast(name, 1))
    else if StartsWith(name, "*.") && !HasGlobMeta(name[1..]) then SuffixDir(name[1..])
    else Fallback
  }

  /** The basename branch, in the source's order: specials, `.*` prefixes,
      exact names, `*.` suffixes, other `*` prefixes. */
  function ClassifyBase(name: string): (s: Shape)
    requires '/' !in name
    ensures !s.IsDir() && s != Dropped
  {
    if name == "*~" then Special(Tilde)
    else if name == "#*#" then Special(HashWrapped)
    else if name == "._*" then Special(DotUnderscore)
    else if name == ".#*" then Special(DotHash)
    else if EndsWith(name, ".*") && !HasGlobMeta(DropLast(name, 2)) then PrefixBasename(DropLast(name, 1))
    else if !HasGlobMeta(name) then ExactBasename(name)
    else if StartsWith(name, "*.") && !HasGlobMeta(name[1..]) then SuffixBasename(name[1..])
    else if EndsWith(name, "*") && !HasGlobMeta(DropLast(name, 1)) then PrefixBasename(DropLast(name, 1))
    else Fallback
  }

  /** Glob metacharacters of a concatenation are those of its halves. */
  lemma GlobMetaConcat(a: string, b: string)
    ensures HasGlobMeta(a + b) <==> HasGlobMeta(a) || HasGlobMeta(b)
  {
    var ab := a + b;
    if HasGlobMeta(ab) {
      var i :| 0 <= i < |ab| && IsGlobMeta(ab[i]);
      if i < |a| { assert a[i] == ab[i]; } else { assert b[i - |a|] == ab[i]; }
    }
    if HasGlobMeta(a) {
      var i :| 0 <= i < |a| && IsGlobMeta(a[i]);
      assert ab[i] == a[i];
    }
    if HasGlobMeta(b) {
      var i :| 0 <= i < |b| && IsGlobMeta(b[i]);
      assert ab[|a| + i] == b[i];
    }
  }

  lemma StarIsMeta(a: string, b: string)
    ensures HasGlobMeta(a + "*" + b)
  {
    assert (a + "*" + b)[|a|] == '*';
  }

  /** `/` in a concatenation is `/` in one of its halves. */
  lemma SlashConcat(a: string, b: string)
    ensures '/' in a + b <==> '/' in a || '/' in b
  {
    if '/' in a + b {
      var i :| 0 <= i < |a + b| && (a + b)[i] == '/';
      if i < |a| { assert a[i] == '/'; } else { assert b[i - |a|] == '/'; }
    }
  }

  // A basename tail never ends in `/**` unless it holds a `/`.
  lemma NoDirSuffix(name: string)
    requires '/' !in name
    ensures !EndsWith(name, "/**")
  {
    if |name| >= 3 {
      assert name[|name| - 3..][0] == name[|name| - 3];
    }
  }

  /** No literal name equals a special name, or ends in `*`. */
  lemma PlainNotStarred(n: string)
    requires !HasGlobMeta(n)
    ensures n != "*~" && n != "#*#" && n != "._*" && n != ".#*"
    ensures !EndsWith(n, "*") && !EndsWith(n, ".*")
  {
    assert "*~"[0] == '*' && "#*#"[1] == '*' && "._*"[2] == '*' && ".#*"[2] == '*';
    if |n| >= 1 {
      assert !IsGlobMeta(n[|n| - 1]);
      assert n[|n| - 1..][0] == n[|n| - 1];
    }
    if |n| >= 2 {
      assert n[|n| - 2..][1] == n[|n| - 1];
    }
  }

  // A body `**/<name>` with no further `/` goes to the basename branch.
  lemma ClassifyOfBase(name: string)
    requires '/' !in name
    ensures Classify("**/" + name) == ClassifyBase(name)
  {
    assert ("**/" + name)[3..] == name;
    NoDirSuffix(name);
  }

  // A body `**/<name>/**` goes to the directory branch.
  lemma ClassifyOfDir(name: string)
    ensures Classify("**/" + name + "/**") == ClassifyDir(name)
  {
    var tail := name + "/**";
    assert ("**/" + name + "/**")[3..] == tail;
    assert DropLast(tail, 3) == name;
  }

  lemma ClassifyRenderExactBasename(n: string)
    requires WellFormed(ExactBasename(n))
    ensures Classify(Body(ExactBasename(n))) == ExactBasename(n)
  {
    ClassifyOfBase(n);
    PlainNotStarred(n);
  }

  // `<x>*` is not special, so it is a prefix pattern by one of the two
  // prefix branches; both keep `x`.
  lemma ClassifyBasePrefix(x: string)
    requires WellFormed(PrefixBasename(x))
    ensures ClassifyBase(x + "*") == PrefixBasename(x)
  {
    var name := x + "*";
    SlashConcat(x, "*");
    assert DropLast(name, 1) == x;
    assert name != "*~" && name != "#*#" by {
      assert name[|name| - 1] == '*';
    }
    if EndsWith(name, ".*") && !HasGlobMeta(DropLast(name, 2)) {
    } else {
      StarIsMeta(x, "");
      assert x + "*" + "" == name;
      if |x| > 0 {
        assert name[0] == x[0];
        assert !IsGlobMeta(x[0]);
      }
      assert !StartsWith(name, "*.");
    }
  }

  lemma ClassifyRenderPrefixBasename(x: string)
    requires WellFormed(PrefixBasename(x))
    ensures Classify(Body(PrefixBasename(x))) == PrefixBasename(x)
  {
    var name := x + "*";
    assert Body(PrefixBasename(x)) == "**/" + name;
    SlashConcat(x, "*");
    ClassifyOfBase(name);
    ClassifyBasePrefix(x);
  }

  // `*<x>` with `x` a dotted literal passes every earlier basename branch.
  lemma ClassifyBaseSuffix(x: string)
    requires WellFormed(SuffixBasename(x))
    ensures ClassifyBase("*" + x) == SuffixBasename(x)
  {
    var name := "*" + x;
    SlashConcat("*", x);
    assert name[1..] == x;
    assert name[1] == '.';
    StarIsMeta("", x);
    assert "" + "*" + x == name;
    assert StartsWith(name, "*.");
  }

  lemma ClassifyRenderSuffixBasename(x: string)
    requires WellFormed(SuffixBasename(x))
    ensures Classify(Body(SuffixBasename(x))) == SuffixBasename(x)
  {
    SlashConcat("*", x);
    ClassifyOfBase("*" + x);
    assert "**/*" + x == "**/" + ("*" + x);
    ClassifyBaseSuffix(x);
  }

  lemma ClassifyRenderExactDir(n: string)
    requires WellFormed(ExactDir(n))
    ensures Classify(Body(ExactDir(n))) == ExactDir(n)
  {
    ClassifyOfDir(n);
    assert n != "**" by { assert "**"[0] == '*'; }
  }

  // `<x>*` as a directory name is neither `**` nor literal, so it is a
  // prefix directory.
  lemma ClassifyDirPrefix(x: string)
    requires WellFormed(PrefixDir(x))
    ensures ClassifyDir(x + "*") == PrefixDir(x)
  {
    var name := x + "*";
    assert DropLast(name, 1) == x;
    SlashConcat(x, "*");
    StarIsMeta(x, "");
    assert x + "*" + "" == name;
    assert name[|name| - 1] == '*';
    if |x| > 0 {
      assert name[0] == x[0] && !IsGlobMeta(x[0]);
    }
  }

  lemma ClassifyRenderPrefixDir(x: string)
    requires WellFormed(PrefixDir(x))
    ensures Classify(Body(PrefixDir(x))) == PrefixDir(x)
  {
    var name := x + "*";
    assert Body(PrefixDir(x)) == "**/" + name + "/**";
    ClassifyOfDir(name);
    ClassifyDirPrefix(x);
  }

  lemma ClassifyRenderSuffixDir(x: string)
    requires WellFormed(SuffixDir(x))
    ensures Classify(Body(SuffixDir(x))) == SuffixDir(x)
  {
    var name := "*" + x;
    ClassifyOfDir(name);
    assert "**/*" + x + "/**" == "**/" + name + "/**";
    assert name[1..] == x;
    SlashConcat("*", x);
    StarIsMeta("", x);
    assert "" + "*" + x == name;
    assert StartsWith(name, "*.");
    assert name[1] == '.';
  }

  lemma ClassifyRenderSpecial(k: SpecialKind)
    ensures Classify(Body(Special(k))) == Special(k)
  {
    var name := SpecialName(k);
    ClassifyOfBase(name);
  }

  /** Every well-formed shape is the classification of its rendering: the
      classifier loses nothing about a structural shape. */
  lemma ClassifyRender(s: Shape)
    requires WellFormed(s)
    ensures Classify(Body(s)) == s
  {
    match s
    case ExactBasename(n) => ClassifyRenderExactBasename(n);
    case PrefixBasename(x) => ClassifyRenderPrefixBasename(x);
    case SuffixBasename(x) => ClassifyRenderSuffixBasename(x);
    case ExactDir(n) => ClassifyRenderExactDir(n);
    case PrefixDir(x) => ClassifyRenderPrefixDir(x);
    case SuffixDir(x) => ClassifyRenderSuffixDir(x);
    case Special(k) => ClassifyRenderSpecial(k);
  }

  // The name before a trailing `*`, when it is literal, renders back.
  lemma StarredName(name: string)
    requires '/' !in name && EndsWith(name, "*") && !HasGlobMeta(DropLast(name, 1))
    ensures PlainName(DropLast(name, 1))
    ensures name == DropLast(name, 1) + "*"
  {
    var x := DropLast(name, 1);
    assert name == x + "*";
    SlashConcat(x, "*");
  }

  // The name after a leading `*`, when it is literal and dotted, renders back.
  lemma DottedName(name: string)
    requires '/' !in name && StartsWith(name, "*.") && !HasGlobMeta(name[1..])
    ensures PlainName(name[1..]) && name[1..] != [] && name[1..][0] == '.'
    ensures name == "*" + name[1..]
  {
    assert name == "*" + name[1..];
    SlashConcat("*", name[1..]);
  }

  lemma PrefixDirRenders(name: string)
    requires '/' !in name && EndsWith(name, "*") && !HasGlobMeta(DropLast(name, 1))
    ensures WellFormed(PrefixDir(DropLast(name, 1)))
    ensures Body(PrefixDir(DropLast(name, 1))) == "**/" + name + "/**"
  {
    StarredName(name);
    assert "**/" + name + "/**" == "**/" + DropLast(name, 1) + "*/**";
  }

  lemma SuffixDirRenders(name: string)
    requires '/' !in name && StartsWith(name, "*.") && !HasGlobMeta(name[1..])
    ensures WellFormed(SuffixDir(name[1..]))
    ensures Body(SuffixDir(name[1..])) == "**/" + name + "/**"
  {
    DottedName(name);
    assert "**/" + name + "/**" == "**/*" + name[1..] + "/**";
  }

  lemma RenderClassifyDir(tail: string)
    ensures EndsWith(tail, "/**") && ClassifyDir(DropLast(tail, 3)).IsFast() ==>
              WellFormed(ClassifyDir(DropLast(tail, 3))) &&
              Body(ClassifyDir(DropLast(tail, 3))) == "**/" + tail
  {
    if !EndsWith(tail, "/**") || !ClassifyDir(DropLast(tail, 3)).IsFast() {
      return;
    }
    var name := DropLast(tail, 3);
    assert tail == name + "/**";
    assert "**/" + tail == "**/" + name + "/**";
    if !HasGlobMeta(name) {
    } else if EndsWith(name, "*") && !HasGlobMeta(DropLast(name, 1)) {
      PrefixDirRenders(name);
    } else {
      SuffixDirRenders(name);
    }
  }

  // A `<x>*` basename, by either prefix branch, is a well-formed prefix
  // shape that renders back.
  lemma PrefixBaseRenders(name: string)
    requires '/' !in name && name != "._*" && name != ".#*"
    requires EndsWith(name, "*") && !HasGlobMeta(DropLast(name, 1))
    ensures WellFormed(PrefixBasename(DropLast(name, 1)))
    ensures Body(PrefixBasename(DropLast(name, 1))) == "**/" + name
  {
    StarredName(name);
    assert "**/" + name == "**/" + DropLast(name, 1) + "*";
  }

  // The `.*` branch keeps the dot: its prefix is the literal before `*`.
  lemma DotStarIsStarred(name: string)
    requires EndsWith(name, ".*") && !HasGlobMeta(DropLast(name, 2))
    ensures EndsWith(name, "*") && !HasGlobMeta(DropLast(name, 1))
  {
    assert DropLast(name, 1) == DropLast(name, 2) + ".";
    GlobMetaConcat(DropLast(name, 2), ".");
  }

  lemma SuffixBaseRenders(name: string)
    requires '/' !in name && StartsWith(name, "*.") && !HasGlobMeta(name[1..])
    ensures WellFormed(SuffixBasename(name[1..]))
    ensures Body(SuffixBasename(name[1..])) == "**/" + name
  {
    DottedName(name);
    assert "**/" + name == "**/*" + name[1..];
  }

  lemma RenderClassifyBase(name: string)
    ensures '/' !in name && ClassifyBase(name).IsFast() ==>
              WellFormed(ClassifyBase(name)) && Body(ClassifyBase(name)) == "**/" + name
  {
    if '/' in name || !ClassifyBase(name).IsFast() {
    } else if name == "*~" || name == "#*#" || name == "._*" || name == ".#*" {
    } else if EndsWith(name, ".*") && !HasGlobMeta(DropLast(name, 2)) {
      DotStarIsStarred(name);
      PrefixBaseRenders(name);
    } else if !HasGlobMeta(name) {
    } else if StartsWith(name, "*.") && !HasGlobMeta(name[1..]) {
      SuffixBaseRenders(name);
    } else {
      PrefixBaseRenders(name);
    }
  }

  // The only body compiled to nothing is `**/**/**`.
  lemma DroppedExactly(pat: string)
    ensures Classify(pat) == Dropped <==> pat == "**/**/**"
  {
    assert "**/**/**"[3..] == "**/**";
    assert DropLast("**/**", 3) == "**";
    if Classify(pat) == Dropped {
      var tail := pat[3..];
      assert pat == "**/" + tail;
      assert EndsWith(tail, "/**") && DropLast(tail, 3) == "**";
      assert tail == DropLast(tail, 3) + "/**";
    }
  }
}
