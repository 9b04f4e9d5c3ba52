/** ASCII string helpers standing in for the Python `str` methods the rule
    engine uses: strip, lstrip, lower, startswith/endswith, split, rsplit,
    and the glob-metacharacter test. */
module Text {

  /** Whitespace as `str.strip()` sees it, restricted to ASCII. */
  predicate IsSpace(c: char) {
    c == ' ' || c == '\t' || c == '\n' || c == '\r' || c == '\U{0B}' || c == '\U{0C}'
    || c == '\U{1C}' || c == '\U{1D}' || c == '\U{1E}' || c == '\U{1F}'
  }

  predicate StartsWith(s: string, prefix: string) {
    prefix <= s
  }

  predicate EndsWith(s: string, suffix: string) {
    |suffix| <= |s| && s[|s| - |suffix|..] == suffix
  }

  /** Drops leading whitespace: the result is a suffix of `s` that does not
      start with whitespace, and what it drops is whitespace only. */
  function TrimStart(s: string): (r: string)
    ensures |r| <= |s| && r == s[|s| - |r|..]
    ensures r == [] || !IsSpace(r[0])
    ensures forall i :: 0 <= i < |s| - |r| ==> IsSpace(s[i])
  {
    if |s| > 0 && IsSpace(s[0]) then
      var r := TrimStart(s[1..]);
      assert forall i :: 1 <= i < |s| ==> s[i] == s[1..][i - 1];
      r
    else
      s
  }

  /** Drops trailing whitespace: the result is a prefix of `s` that does not
      end with whitespace, and what it drops is whitespace only. */
  function TrimEnd(s: string): (r: string)
    ensures |r| <= |s| && r == s[..|r|]
    ensures r == [] || !IsSpace(r[|r| - 1])
    ensures forall i :: |r| <= i < |s| ==> IsSpace(s[i])
  {
    if |s| > 0 && IsSpace(s[|s| - 1]) then
      var r := TrimEnd(s[..|s| - 1]);
      assert forall i :: 0 <= i < |s| - 1 ==> s[i] == s[..|s| - 1][i];
      r
    else
      s
  }

  /** `r` is the slice of `s` starting at `i`, and everything of `s`
      outside that slice is whitespace. */
  predicate SpaceAround(s: string, i: int, r: string) {
    && 0 <= i <= |s| - |r|
    && r == s[i..i + |r|]
    && (forall j :: 0 <= j < i ==> IsSpace(s[j]))
    && (forall j :: i + |r| <= j < |s| ==> IsSpace(s[j]))
  }

  /** `str.strip()`: whitespace removed at both ends. */
  function Strip(s: string): (r: string)
    ensures |r| <= |s|
    ensures r == [] || (!IsSpace(r[0]) && !IsSpace(r[|r| - 1]))
  {
    var t := TrimStart(s);
    var r := TrimEnd(t);
    assert r != [] ==> r[0] == t[0];
    r
  }

  /** What `Strip` keeps is a slice of `s`, and everything outside the
      slice is whitespace; with the ends of the result not whitespace, this
      pins the result. */
  lemma StripSpaceAround(s: string)
    ensures exists i :: SpaceAround(s, i, Strip(s))
  {
    var t := TrimStart(s);
    assert Strip(s) == TrimEnd(t);
    StripSlice(s, t, TrimEnd(t));
  }

  // A suffix of `s` with whitespace before it, cut down to a prefix with
  // whitespace after it, is a slice with whitespace around it.
  lemma StripSlice(s: string, t: string, r: string)
    requires |t| <= |s| && t == s[|s| - |t|..]
    requires forall j :: 0 <= j < |s| - |t| ==> IsSpace(s[j])
    requires |r| <= |t| && r == t[..|r|]
    requires forall j :: |r| <= j < |t| ==> IsSpace(t[j])
    ensures SpaceAround(s, |s| - |t|, r)
  {
    var i := |s| - |t|;
    forall j | i + |r| <= j < |s| ensures IsSpace(s[j]) {
      assert s[j] == t[j - i];
    }
  }

  /** A string with no whitespace at either end is its own strip. */
  lemma StripTrimmed(s: string)
    requires s == [] || (!IsSpace(s[0]) && !IsSpace(s[|s| - 1]))
    ensures Strip(s) == s
  {
  }

  /** `str.lstrip(c)`: removes every leading occurrence of `c`; the result
      is a suffix of `s` that does not start with `c`, and what it drops is
      made of `c` only. */
  function TrimLeading(s: string, c: char): (r: string)
    ensures |r| <= |s| && r == s[|s| - |r|..]
    ensures r == [] || r[0] != c
    ensures forall i :: 0 <= i < |s| - |r| ==> s[i] == c
  {
    if |s| > 0 && s[0] == c then
      var r := TrimLeading(s[1..], c);
      assert forall i :: 1 <= i < |s| ==> s[i] == s[1..][i - 1];
      r
    else
      s
  }

  function LowerChar(c: char): char {
    if 'A' <= c <= 'Z' then (c as int - 'A' as int + 'a' as int) as char else c
  }

  predicate IsLower(s: string) {
    forall i :: 0 <= i < |s| ==> LowerChar(s[i]) == s[i]
  }

  /** `str.lower()` on ASCII: letters A-Z become a-z, every other character
      is kept; lower-case strings are fixed points. */
  function Lower(s: string): (r: string)
    ensures |r| == |s|
    ensures forall i :: 0 <= i < |s| ==> r[i] == LowerChar(s[i])
    ensures IsLower(r)
    ensures IsLower(s) ==> r == s
  {
    seq(|s|, i requires 0 <= i < |s| => LowerChar(s[i]))
  }

  lemma LowerIdempotent(s: string)
    ensures Lower(Lower(s)) == Lower(s)
  {
  }

  predicate IsGlobMeta(c: char) {
    c == '*' || c == '?' || c == '[' || c == ']'
  }

  /** `_has_glob_meta`: true exactly when some character is one of `*?[]`. */
  function HasGlobMeta(s: string): (b: bool)
    ensures b <==> exists i :: 0 <= i < |s| && IsGlobMeta(s[i])
  {
    if |s| == 0 then false
    else if IsGlobMeta(s[0]) then true
    else
      var rest := HasGlobMeta(s[1..]);
      assert forall i :: 1 <= i < |s| ==> s[i] == s[1..][i - 1];
      rest
  }

  /** Index of the first `sep` in `s`. */
  function IndexOf(s: string, sep: char): (i: nat)
    requires sep in s
    ensures i < |s| && s[i] == sep && sep !in s[..i]
  {
    if s[0] == sep then 0 else 1 + IndexOf(s[1..], sep)
  }

  /** Joins pieces with `sep` in between (`sep.join(parts)`). */
  function Join(parts: seq<string>, sep: char): string
  {
    if |parts| == 0 then ""
    else if |parts| == 1 then parts[0]
    else parts[0] + [sep] + Join(parts[1..], sep)
  }

  /** `s.split(sep)`: at least one piece, no piece holds `sep`, and joining
      the pieces gives `s` back. */
  function Split(s: string, sep: char): (parts: seq<string>)
    ensures |parts| >= 1
    ensures forall i :: 0 <= i < |parts| ==> sep !in parts[i]
    ensures Join(parts, sep) == s
    ensures sep !in s <==> |parts| == 1
    decreases |s|
  {
    if sep !in s then [s]
    else
      var i := IndexOf(s, sep);
      var rest := Split(s[i + 1..], sep);
      var parts := [s[..i]] + rest;
      assert parts[1..] == rest;
      assert s == s[..i] + [sep] + s[i + 1..];
      parts
  }

  /** Splitting undoes joining, for pieces that do not hold the separator. */
  lemma {:induction false} SplitJoin(parts: seq<string>, sep: char)
    requires |parts| >= 1
    requires forall i :: 0 <= i < |parts| ==> sep !in parts[i]
    ensures Split(Join(parts, sep), sep) == parts
    decreases |parts|
  {
    if |parts| > 1 {
      var s := Join(parts, sep);
      var rest := Join(parts[1..], sep);
      assert s == parts[0] + [sep] + rest;
      SplitJoin(parts[1..], sep);
      assert sep in s by { assert s[|parts[0]|] == sep; }
      var i := IndexOf(s, sep);
      assert s[..|parts[0]|] == parts[0];
      assert i == |parts[0]|;
      assert s[..i] == parts[0];
      assert s[i + 1..] == rest;
    }
  }

  /** `s.rsplit(sep, 1)[-1]`: the longest suffix of `s` without `sep`. */
  function AfterLast(s: string, sep: char): (r: string)
    ensures sep !in r
    ensures EndsWith(s, r)
    ensures |r| < |s| ==> s[|s| - |r| - 1] == sep
  {
    if |s| == 0 || s[|s| - 1] == sep then ""
    else
      var r := AfterLast(s[..|s| - 1], sep) + [s[|s| - 1]];
      assert s[..|s| - 1][|s| - |r|..] + [s[|s| - 1]] == s[|s| - |r|..];
      r
  }

  /** The three properties of `AfterLast` pin it: any suffix without `sep`
      that is the whole string or follows a `sep` is the last piece. */
  lemma AfterLastUnique(s: string, sep: char, r: string)
    requires sep !in r && EndsWith(s, r)
    requires |r| < |s| ==> s[|s| - |r| - 1] == sep
    ensures r == AfterLast(s, sep)
  {
    var a := AfterLast(s, sep);
    if |r| < |a| {
      assert false;
    } else if |a| < |r| {
      assert false;
    }
  }

  // The piece after a separator ends the string and follows the separator.
  lemma PieceAfterSeparator(front: string, sep: char, last: string)
    ensures EndsWith(front + [sep] + last, last)
    ensures (front + [sep] + last)[|front + [sep] + last| - |last| - 1] == sep
  {
    var s := front + [sep] + last;
    assert s[|front| + 1..] == last;
  }

  /** Joining peels off the last piece after the last separator. */
  lemma {:induction false} JoinLast(parts: seq<string>, sep: char)
    requires |parts| >= 2
    ensures Join(parts, sep) == Join(parts[..|parts| - 1], sep) + [sep] + parts[|parts| - 1]
    decreases |parts|
  {
    if |parts| > 2 {
      JoinLast(parts[1..], sep);
      assert parts[1..][..|parts| - 2] == parts[..|parts| - 1][1..];
    } else {
      assert parts[..1] == [parts[0]];
    }
  }

  /** A string without `sep` is its own last piece. */
  lemma {:induction false} AfterLastWhole(s: string, sep: char)
    requires sep !in s
    ensures AfterLast(s, sep) == s
  {
    if |s| > 0 {
      var init := s[..|s| - 1];
      assert sep !in init by {
        forall k | 0 <= k < |init| ensures init[k] != sep {
          assert init[k] == s[k];
        }
      }
      AfterLastWhole(init, sep);
      assert s[..|s| - 1] + [s[|s| - 1]] == s;
    }
  }
}
