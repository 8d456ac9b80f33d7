/**
 * The parts of Rust's `str` API that the core relies on, on `seq<char>`:
 * `trim_end_matches`, `splitn`, `split(..).next()`, `lines().next()`,
 * `strip_prefix` and `trim`.
 */
module Strings {
  import opened Wrappers

  predicate StartsWith(s: string, prefix: string) {
    |prefix| <= |s| && s[..|prefix|] == prefix
  }

  predicate EndsWith(s: string, suffix: string) {
    |suffix| <= |s| && s[|s| - |suffix|..] == suffix
  }

  /** `pat` occurs in `s` starting at index `i`. */
  predicate OccursAt(s: string, pat: string, i: nat) {
    i + |pat| <= |s| && s[i..i + |pat|] == pat
  }

  /** `pat` occurs somewhere in `s`. */
  predicate Contains(s: string, pat: string) {
    exists i: nat | i <= |s| :: OccursAt(s, pat, i)
  }

  /** Concatenation of a sequence of strings. */
  function Concat(parts: seq<string>): string {
    if parts == [] then [] else Concat(parts[..|parts| - 1]) + parts[|parts| - 1]
  }

  lemma {:induction false} ConcatAppend(a: seq<string>, b: seq<string>)
    ensures Concat(a + b) == Concat(a) + Concat(b)
    decreases |b|
  {
    if b == [] {
      assert a + b == a;
    } else {
      var b', last := b[..|b| - 1], b[|b| - 1];
      var c := a + b;
      assert c[..|c| - 1] == a + b' && c[|c| - 1] == last;
      ConcatAppend(a, b');
      AppendAssoc(Concat(a), Concat(b'), last);
    }
  }

  /** `parts` joined with `sep` between consecutive elements (Rust's `join`). */
  function Join(parts: seq<string>, sep: string): string {
    if parts == [] then []
    else if |parts| == 1 then parts[0]
    else parts[0] + sep + Join(parts[1..], sep)
  }

  /** Index of the first `c` in `s`, or `|s|` when there is none. */
  function FindChar(s: string, c: char): (i: nat)
    ensures i <= |s|
    ensures c !in s[..i]
    ensures i < |s| ==> s[i] == c
  {
    if s == [] then 0
    else if s[0] == c then 0
    else
      var j := FindChar(s[1..], c);
      assert s[..j + 1] == [s[0]] + s[1..][..j];
      j + 1
  }

  /** Rust's `strip_prefix`. */
  function StripPrefix(s: string, prefix: string): (r: Option<string>)
    ensures r.Some? <==> StartsWith(s, prefix)
    ensures r.Some? ==> s == prefix + r.value
  {
    if StartsWith(s, prefix) then Some(s[|prefix|..]) else None
  }

  lemma StripPrefixOf(prefix: string, rest: string)
    ensures StripPrefix(prefix + rest, prefix) == Some(rest)
  {
    assert (prefix + rest)[..|prefix|] == prefix;
    assert (prefix + rest)[|prefix|..] == rest;
  }

  /**
   * Rust's `trim_end_matches` with a string pattern: removes trailing copies
   * of `pat` for as long as one is left.
   */
  function TrimEndMatches(s: string, pat: string): (r: string)
    requires pat != []
    ensures exists n: nat :: s == r + Repeat(pat, n)
    ensures !EndsWith(r, pat)
    decreases |s|
  {
    if EndsWith(s, pat) then
      var shorter := s[..|s| - |pat|];
      var r := TrimEndMatches(shorter, pat);
      assert s == shorter + pat;
      assert exists n: nat :: s == r + Repeat(pat, n) by {
        var n: nat :| shorter == r + Repeat(pat, n);
        AppendAssoc(r, Repeat(pat, n), pat);
        assert s == r + Repeat(pat, n + 1);
      }
      r
    else
      assert s == s + Repeat(pat, 0);
      s
  }

  /**
   * Rust's `splitn(n, sep)`: at most `n` pieces, the last of which keeps
   * every further separator.
   */
  function SplitN(s: string, n: nat, sep: char): (parts: seq<string>)
    ensures n == 0 ==> parts == []
    ensures n > 0 ==> 1 <= |parts| <= n && Join(parts, [sep]) == s
    ensures forall k :: 0 <= k < |parts| - 1 ==> sep !in parts[k]
    ensures 0 < |parts| < n ==> sep !in parts[|parts| - 1]
  {
    if n == 0 then []
    else if n == 1 then [s]
    else
      var i := FindChar(s, sep);
      if i == |s| then
        assert s[..i] == s;
        [s]
      else
        var rest := SplitN(s[i + 1..], n - 1, sep);
        assert s == s[..i] + [sep] + s[i + 1..];
        [s[..i]] + rest
  }

  /** Number of occurrences of `c` in `s`. */
  function CountChar(s: string, c: char): nat {
    if s == [] then 0 else (if s[0] == c then 1 else 0) + CountChar(s[1..], c)
  }

  /** `splitn(n, sep)` yields all `n` pieces exactly when `s` holds at least `n - 1` separators. */
  lemma {:induction false} SplitNFull(s: string, n: nat, sep: char)
    requires n > 0
    ensures |SplitN(s, n, sep)| == n <==> CountChar(s, sep) >= n - 1
  {
    if n == 1 {
    } else {
      var i := FindChar(s, sep);
      CountCharFrom(s, sep, i);
      if i < |s| {
        SplitNFull(s[i + 1..], n - 1, sep);
      }
    }
  }

  /** Counting past a separator-free prefix. */
  lemma {:induction false} CountCharFrom(s: string, c: char, i: nat)
    requires i <= |s| && c !in s[..i]
    ensures i == |s| ==> CountChar(s, c) == 0
    ensures i < |s| && s[i] == c ==> CountChar(s, c) == 1 + CountChar(s[i + 1..], c)
  {
    if i > 0 {
      assert s[1..][..i - 1] == s[1..i];
      CountCharFrom(s[1..], c, i - 1);
      if i < |s| { assert s[1..][i..] == s[i + 1..]; }
    }
  }

  /** The first element of `split(sep)`, which always exists. */
  function SplitFirst(s: string, sep: char): (r: string)
    ensures StartsWith(s, r) && sep !in r
    ensures |r| < |s| ==> s[|r|] == sep
  {
    s[..FindChar(s, sep)]
  }

  /**
   * `lines().next()`: `None` for the empty string; otherwise the text up to
   * the first line feed, with a carriage return before that line feed
   * removed. A carriage return not followed by a line feed is kept.
   */
  function FirstLine(s: string): (r: Option<string>)
    ensures r.None? <==> s == []
    ensures r.Some? ==> IsFirstLine(s, r.value)
  {
    if s == [] then None
    else
      var i := FindChar(s, '\n');
      if i == |s| then
        assert s[..i] == s;
        Some(s)
      else if i > 0 && s[i - 1] == '\r' then
        assert s[..i + 1] == s[..i - 1] + "\r\n";
        assert s[..i - 1] == s[..i][..i - 1];
        Some(s[..i - 1])
      else
        assert s[..i + 1] == s[..i] + "\n";
        assert i > 0 ==> s[..i][i - 1..] == [s[i - 1]];
        Some(s[..i])
  }

  /**
   * `line` is the first line of `s` as `lines()` yields it: the whole text
   * when it holds no line feed, otherwise the text before the first line
   * feed, less a carriage return just before that line feed.
   */
  predicate IsFirstLine(s: string, line: string) {
    && '\n' !in line
    && (|| s == line
        || StartsWith(s, line + "\r\n")
        || (StartsWith(s, line + "\n") && !EndsWith(line, "\r")))
  }

  /** A text has at most one first line. */
  lemma FirstLineUnique(s: string, a: string, b: string)
    requires IsFirstLine(s, a) && IsFirstLine(s, b)
    ensures a == b
  {
    if |a| <= |b| {
      FirstLineShorter(s, a, b);
    } else {
      FirstLineShorter(s, b, a);
    }
  }

  lemma FirstLineShorter(s: string, a: string, b: string)
    requires IsFirstLine(s, a) && IsFirstLine(s, b) && |a| <= |b|
    ensures a == b
  {
    assert a == s[..|a|] by {
      if s != a {
        assert s[..|a|] == s[..|a| + 1][..|a|];
      }
    }
    assert b == s[..|b|] by {
      if s != b {
        assert s[..|b|] == s[..|b| + 1][..|b|];
      }
    }
    if s == a {
      assert |b| <= |a|;
    } else if StartsWith(s, a + "\r\n") {
      assert s[|a| + 1] == (a + "\r\n")[|a| + 1];
      FeedBound(s, b, |a| + 1);
      if |b| == |a| + 1 {
        assert false;
      }
    } else {
      assert s[|a|] == (a + "\n")[|a|];
      FeedBound(s, b, |a|);
    }
  }

  /** A prefix without line feeds ends at or before any line feed. */
  lemma FeedBound(s: string, b: string, k: nat)
    requires |b| <= |s| && b == s[..|b|] && '\n' !in b
    requires k < |s| && s[k] == '\n'
    ensures |b| <= k
  {
    assert forall j | 0 <= j < |b| :: s[j] == b[j] && s[j] != '\n';
  }

  /** Unicode `White_Space`, the set `char::is_whitespace` accepts. */
  predicate IsWhitespace(c: char) {
    ('\U{9}' <= c <= '\U{D}') || c == ' ' || c == '\U{85}' || c == '\U{A0}' ||
    c == '\U{1680}' || ('\U{2000}' <= c <= '\U{200A}') || c == '\U{2028}' ||
    c == '\U{2029}' || c == '\U{202F}' || c == '\U{205F}' || c == '\U{3000}'
  }

  function TrimStart(s: string): (r: string)
    ensures |r| <= |s| && r == s[|s| - |r|..]
    ensures forall k :: 0 <= k < |s| - |r| ==> IsWhitespace(s[k])
    ensures r == [] || !IsWhitespace(r[0])
  {
    if s != [] && IsWhitespace(s[0]) then TrimStart(s[1..]) else s
  }

  function TrimEnd(s: string): (r: string)
    ensures |r| <= |s| && r == s[..|r|]
    ensures forall k :: |r| <= k < |s| ==> IsWhitespace(s[k])
    ensures r == [] || !IsWhitespace(r[|r| - 1])
  {
    if s != [] && IsWhitespace(s[|s| - 1]) then TrimEnd(s[..|s| - 1]) else s
  }

  /** Rust's `trim`: the longest slice with no white space at either end. */
  function Trim(s: string): (r: string)
    ensures |r| <= |s|
    ensures r == [] || (!IsWhitespace(r[0]) && !IsWhitespace(r[|r| - 1]))
    ensures r == [] <==> forall k :: 0 <= k < |s| ==> IsWhitespace(s[k])
  {
    TrimAllWhitespace(s);
    TrimEnd(TrimStart(s))
  }

  /** Both trims leave nothing exactly when the text is all white space. */
  lemma TrimAllWhitespace(s: string)
    ensures TrimEnd(TrimStart(s)) == [] <==> forall k :: 0 <= k < |s| ==> IsWhitespace(s[k])
  {
    var t := TrimStart(s);
    if t != [] {
      assert !IsWhitespace(t[0]);
    }
  }

  /** `trim` cuts the input at `i` and `j`, and only white space is cut. */
  lemma TrimShape(s: string) returns (i: nat, j: nat)
    ensures i <= j <= |s| && Trim(s) == s[i..j]
    ensures forall k :: 0 <= k < i ==> IsWhitespace(s[k])
    ensures forall k :: j <= k < |s| ==> IsWhitespace(s[k])
    ensures Trim(s) == [] || (!IsWhitespace(Trim(s)[0]) && !IsWhitespace(Trim(s)[|Trim(s)| - 1]))
  {
    var t := TrimStart(s);
    var r := TrimEnd(t);
    i := |s| - |t|;
    j := i + |r|;
    assert r == s[i..j];
    forall k | j <= k < |s| ensures IsWhitespace(s[k]) {
      assert s[k] == t[k - i];
    }
  }

  /**
   * syntect's `LinesWithEndings`: the lines of `s`, each keeping its line
   * feed; the last one has none when `s` does not end with one.
   */
  function LinesWithEndings(s: string): (lines: seq<string>)
    ensures Concat(lines) == s
    ensures forall k :: 0 <= k < |lines| ==> lines[k] != [] && '\n' !in lines[k][..|lines[k]| - 1]
    ensures forall k :: 0 <= k < |lines| - 1 ==> lines[k][|lines[k]| - 1] == '\n'
  {
    if s == [] then []
    else
      var i := FindChar(s, '\n');
      if i == |s| then
        ConcatOne(s);
        [s]
      else
        var line, rest := s[..i + 1], LinesWithEndings(s[i + 1..]);
        LinesCons(s, i, rest);
        [line] + rest
  }

  lemma ConcatOne(line: string)
    ensures Concat([line]) == line
  {
    assert [line][..0] == [];
  }

  /** The line through the first line feed at `i`, put in front of the lines of the rest. */
  lemma LinesCons(s: string, i: nat, rest: seq<string>)
    requires i < |s| && s[i] == '\n' && '\n' !in s[..i]
    requires Concat(rest) == s[i + 1..]
    requires forall k :: 0 <= k < |rest| ==> rest[k] != [] && '\n' !in rest[k][..|rest[k]| - 1]
    requires forall k :: 0 <= k < |rest| - 1 ==> rest[k][|rest[k]| - 1] == '\n'
    ensures var lines := [s[..i + 1]] + rest;
      && Concat(lines) == s
      && (forall k :: 0 <= k < |lines| ==> lines[k] != [] && '\n' !in lines[k][..|lines[k]| - 1])
      && (forall k :: 0 <= k < |lines| - 1 ==> lines[k][|lines[k]| - 1] == '\n')
  {
    var line := s[..i + 1];
    assert line[..|line| - 1] == s[..i];
    ConcatAppend([line], rest);
    ConcatOne(line);
    assert s == line + s[i + 1..];
    EndedLinesCons(line, rest);
  }

  lemma EndedLinesCons(line: string, rest: seq<string>)
    requires line != [] && '\n' !in line[..|line| - 1] && line[|line| - 1] == '\n'
    requires forall k :: 0 <= k < |rest| ==> rest[k] != [] && '\n' !in rest[k][..|rest[k]| - 1]
    requires forall k :: 0 <= k < |rest| - 1 ==> rest[k][|rest[k]| - 1] == '\n'
    ensures var lines := [line] + rest;
      && (forall k :: 0 <= k < |lines| ==> lines[k] != [] && '\n' !in lines[k][..|lines[k]| - 1])
      && (forall k :: 0 <= k < |lines| - 1 ==> lines[k][|lines[k]| - 1] == '\n')
  {
    var lines := [line] + rest;
    assert forall j :: 0 <= j < |rest| ==> lines[j + 1] == rest[j];
  }

  /** `n` copies of `pat`. */
  function Repeat(pat: string, n: nat): string {
    if n == 0 then [] else Repeat(pat, n - 1) + pat
  }

  /** One more trailing copy of the pattern changes nothing once the stem is trimmed. */
  lemma TrimEndMatchesOneMore(stem: string, pat: string, m: nat)
    requires pat != []
    requires TrimEndMatches(stem + Repeat(pat, m), pat) == stem
    ensures TrimEndMatches(stem + Repeat(pat, m + 1), pat) == stem
  {
    var shorter := stem + Repeat(pat, m);
    var s := shorter + pat;
    AppendAssoc(stem, Repeat(pat, m), pat);
    assert s[|s| - |pat|..] == pat;
    assert s[..|s| - |pat|] == shorter;
  }

  /** Trailing copies of the pattern are all removed, and nothing before them. */
  lemma {:induction false} TrimEndMatchesRepeat(stem: string, pat: string, n: nat)
    requires pat != [] && !EndsWith(stem, pat)
    ensures TrimEndMatches(stem + Repeat(pat, n), pat) == stem
  {
    if n == 0 {
      assert stem + Repeat(pat, n) == stem;
    } else {
      var m := n - 1;
      TrimEndMatchesRepeat(stem, pat, m);
      TrimEndMatchesOneMore(stem, pat, m);
    }
  }

  lemma {:induction false} FindCharOf(a: string, c: char, rest: string)
    requires c !in a
    ensures FindChar(a + [c] + rest, c) == |a|
  {
    if a != [] {
      assert (a + [c] + rest)[1..] == a[1..] + [c] + rest;
      FindCharOf(a[1..], c, rest);
    }
  }

  /** `splitn(3, sep)` of `a sep b sep c`, where only `c` may hold further separators. */
  lemma SplitN3Of(a: string, b: string, c: string, sep: char)
    requires sep !in a && sep !in b
    ensures SplitN(a + [sep] + b + [sep] + c, 3, sep) == [a, b, c]
  {
    var s := a + [sep] + b + [sep] + c;
    FindCharOf(a, sep, b + [sep] + c);
    assert s == a + [sep] + (b + [sep] + c);
    assert s[..|a|] == a;
    assert s[|a| + 1..] == b + [sep] + c;
    FindCharOf(b, sep, c);
    var t := b + [sep] + c;
    assert t[..|b|] == b && t[|b| + 1..] == c;
  }
  /** Index of the first occurrence of `pat` in `s` at or after `from` (Rust's `find`). */
  function FindFrom(s: string, pat: string, from: nat): (r: Option<nat>)
    requires from <= |s|
    ensures r.Some? ==> from <= r.value && OccursAt(s, pat, r.value)
    ensures r.Some? ==> forall j: nat | from <= j < r.value :: !OccursAt(s, pat, j)
    ensures r.None? ==> forall j: nat | from <= j <= |s| :: !OccursAt(s, pat, j)
    decreases |s| - from
  {
    if OccursAt(s, pat, from) then Some(from)
    else if from == |s| then None
    else FindFrom(s, pat, from + 1)
  }
  lemma OccursInPrefix(s: string, pat: string, i: nat, j: nat)
    requires i <= |s|
    ensures OccursAt(s[..i], pat, j) ==> OccursAt(s, pat, j)
  {
    if j + |pat| <= i {
      assert s[..i][j..j + |pat|] == s[j..j + |pat|];
    }
  }

  lemma JoinStartsWith(parts: seq<string>, sep: string)
    requires parts != []
    ensures StartsWith(Join(parts, sep), parts[0])
  {
    if |parts| > 1 {
      assert Join(parts, sep) == parts[0] + (sep + Join(parts[1..], sep));
    }
  }
  lemma AppendAssoc(a: string, b: string, c: string)
    ensures (a + b) + c == a + (b + c)
  {
  }

  /** `split(sep).next()` of `a sep b` is `a` when `a` holds no separator. */
  lemma SplitFirstOf(a: string, sep: char, b: string)
    requires sep !in a
    ensures SplitFirst(a + [sep] + b, sep) == a
  {
    var s := a + [sep] + b;
    var r := SplitFirst(s, sep);
    assert s[|a|] == sep;
    assert forall k :: 0 <= k < |a| ==> s[k] == a[k];
    assert r == s[..|r|];
    assert s[..|a|] == a;
  }
}
