/**
  The regular expressions the fixers use, each written out as the
  deterministic matcher it amounts to, and Python's `re.sub` with a
  replacement function.  In each pattern a repeated character class is
  followed by a character outside the class, so the greedy match is the
  only one and no backtracking is needed.
 */
module Regex {
  import opened Wrappers
  import opened Text

  /** A match: the whole match is `s[start..end]`, the named group
      `s[groupStart..groupEnd]`. */
  datatype Match = Match(start: nat, groupStart: nat, groupEnd: nat, end: nat)

  predicate WellPlaced(m: Match, s: string, i: nat)
  {
    m.start == i && i <= m.groupStart <= m.groupEnd <= m.end <= |s| && i < m.end
  }

  /** `\w` over ASCII, plus `/` and `.`: the class of the image file name. */
  predicate IsPathChar(c: char)
  {
    IsAsciiLetter(c) || ('0' <= c <= '9') || c == '_' || c == '/' || c == '.'
  }

  predicate IsUpper(c: char)
  {
    'A' <= c <= 'Z'
  }

  /** The first index at or after `i` whose character is `stop`, or `|s|`. */
  function SkipUntil(s: string, i: nat, stop: char): (j: nat)
    requires i <= |s|
    ensures i <= j <= |s|
    ensures j < |s| ==> s[j] == stop
    ensures forall k :: i <= k < j ==> s[k] != stop
    decreases |s| - i
  {
    if i == |s| || s[i] == stop then i else SkipUntil(s, i + 1, stop)
  }

  /** The end of the run of path characters starting at `i`. */
  function SkipPathChars(s: string, i: nat): (j: nat)
    requires i <= |s|
    ensures i <= j <= |s|
    ensures j < |s| ==> !IsPathChar(s[j])
    ensures forall k :: i <= k < j ==> IsPathChar(s[k])
    decreases |s| - i
  {
    if i == |s| || !IsPathChar(s[i]) then i else SkipPathChars(s, i + 1)
  }

  function SkipUpper(s: string, i: nat): (j: nat)
    requires i <= |s|
    ensures i <= j <= |s|
    ensures j < |s| ==> !IsUpper(s[j])
    ensures forall k :: i <= k < j ==> IsUpper(s[k])
    decreases |s| - i
  {
    if i == |s| || !IsUpper(s[i]) then i else SkipUpper(s, i + 1)
  }

  predicate LiteralAt(s: string, i: nat, lit: string)
  {
    i + |lit| <= |s| && s[i..i + |lit|] == lit
  }

  const RawSuffix: string := "?raw=true \""

  /** `!\[[^]]*\]\((?P<filename>/[\w/\.]+)\?raw=true "[^"]*"\)` tried at `i`. */
  function MarkdownImageAt(s: string, i: nat): (r: Option<Match>)
    requires i <= |s|
    ensures r.Some? ==> WellPlaced(r.value, s, i)
    ensures r.Some? ==> r.value.groupEnd >= r.value.groupStart + 2 && s[r.value.groupStart] == '/'
    ensures r.Some? ==> forall k :: r.value.groupStart < k < r.value.groupEnd ==> IsPathChar(s[k])
    ensures r.Some? ==> LiteralAt(s, i, "![") && LiteralAt(s, r.value.groupEnd, RawSuffix)
  {
    if !LiteralAt(s, i, "![") then None
    else
      var close := SkipUntil(s, i + 2, ']');
      if !LiteralAt(s, close, "](/") then None
      else
        var gStart := close + 2;
        var gEnd := SkipPathChars(s, gStart + 1);
        if gEnd < gStart + 2 || !LiteralAt(s, gEnd, RawSuffix) then None
        else
          var quote := SkipUntil(s, gEnd + |RawSuffix|, '"');
          if !LiteralAt(s, quote, "\")") then None
          else Some(Match(i, gStart, gEnd, quote + 2))
  }

  const BadgePrefix: string := "[![Build Status](https://travis-ci"
  const LinkPrefix: string := "](https://travis-ci"

  /** `\[!\[Build Status\]\(https://travis-ci[^)]+\)\]\(https://travis-ci[^)]+\)`
      tried at `i`; it has no group, so the group is empty. */
  function TravisBadgeAt(s: string, i: nat): (r: Option<Match>)
    requires i <= |s|
    ensures r.Some? ==> WellPlaced(r.value, s, i)
    ensures r.Some? ==> LiteralAt(s, i, BadgePrefix)
  {
    if !LiteralAt(s, i, BadgePrefix) then None
    else
      var j := SkipUntil(s, i + |BadgePrefix|, ')');
      if j == i + |BadgePrefix| || j == |s| || !LiteralAt(s, j + 1, LinkPrefix) then None
      else
        var k := SkipUntil(s, j + 1 + |LinkPrefix|, ')');
        if k == j + 1 + |LinkPrefix| || k == |s| then None
        else Some(Match(i, i, i, k + 1))
  }

  datatype Pattern = MarkdownImage | TravisBadge

  function MatchAt(p: Pattern, s: string, i: nat): (r: Option<Match>)
    requires i <= |s|
    ensures r.Some? ==> WellPlaced(r.value, s, i)
  {
    match p
    case MarkdownImage => MarkdownImageAt(s, i)
    case TravisBadge => TravisBadgeAt(s, i)
  }

  /** `pattern.sub(repl, s[i:])` scanning from `i`: leftmost matches, left
      to right, never overlapping. */
  function Sub(p: Pattern, s: string, repl: Match -> string, i: nat): string
    requires i <= |s|
    decreases |s| - i
  {
    if i == |s| then ""
    else
      match MatchAt(p, s, i)
      case Some(m) => repl(m) + Sub(p, s, repl, m.end)
      case None => [s[i]] + Sub(p, s, repl, i + 1)
  }

  /** Every step of the image pattern succeeds at `i`: the alt text closes
      at `close`, the path group ends at `gEnd` and the title at `quote`. */
  predicate ImageSteps(s: string, i: nat, close: nat, gEnd: nat, quote: nat)
  {
    && LiteralAt(s, i, "![")
    && SkipUntil(s, i + 2, ']') == close && LiteralAt(s, close, "](/")
    && SkipPathChars(s, close + 3) == gEnd && gEnd >= close + 4 && LiteralAt(s, gEnd, RawSuffix)
    && SkipUntil(s, gEnd + |RawSuffix|, '"') == quote && LiteralAt(s, quote, "\")")
  }

  /** When every step succeeds, the pattern matches with the path group
      between `close + 2` and `gEnd`. */
  lemma MarkdownImageFound(s: string, i: nat, close: nat, gEnd: nat, quote: nat)
    requires ImageSteps(s, i, close, gEnd, quote)
    ensures MatchAt(MarkdownImage, s, i) == Some(Match(i, close + 2, gEnd, quote + 2))
  {
  }

  /** A match at `i` is replaced and the scan resumes where it ends. */
  lemma SubAtMatch(p: Pattern, s: string, repl: Match -> string, m: Match)
    requires m.start < |s| && m.end <= |s|
    requires MatchAt(p, s, m.start) == Some(m)
    ensures Sub(p, s, repl, m.start) == repl(m) + Sub(p, s, repl, m.end)
  {
  }

  /** When the scan copies everything before a match at `m.start` and
      everything after it, only that match is replaced. */
  lemma SubOnlyMatch(p: Pattern, s: string, repl: Match -> string, m: Match)
    requires m.start < |s| && m.end <= |s|
    requires MatchAt(p, s, m.start) == Some(m)
    requires Sub(p, s, repl, 0) == s[0..m.start] + Sub(p, s, repl, m.start)
    requires Sub(p, s, repl, m.end) == s[m.end..|s|] + Sub(p, s, repl, |s|)
    ensures Sub(p, s, repl, 0) == s[..m.start] + repl(m) + s[m.end..]
  {
    SubAtMatch(p, s, repl, m);
    assert Sub(p, s, repl, |s|) == "";
    assert s[m.end..|s|] == s[m.end..];
    assert s[0..m.start] == s[..m.start];
  }

  /** The match at `j`, if any, is replaced by the text it matched. */
  predicate KeepsMatchAt(p: Pattern, s: string, repl: Match -> string, j: nat)
    requires j <= |s|
  {
    var r := MatchAt(p, s, j);
    r.Some? ==> repl(r.value) == s[j..r.value.end]
  }

  /** Every match found from `i` onward is replaced by the text it matched. */
  predicate ReplacesBySelf(p: Pattern, s: string, repl: Match -> string, i: nat)
    requires i <= |s|
  {
    forall j :: i <= j <= |s| ==> KeepsMatchAt(p, s, repl, j)
  }

  /** A replacement that gives back the matched text leaves the string as it was. */
  lemma {:induction false} SubIdentity(p: Pattern, s: string, repl: Match -> string, i: nat)
    requires i <= |s|
    requires ReplacesBySelf(p, s, repl, i)
    ensures Sub(p, s, repl, i) == s[i..]
    decreases |s| - i
  {
    if i < |s| {
      var r := MatchAt(p, s, i);
      assert KeepsMatchAt(p, s, repl, i);
      if r.Some? {
        var m := r.value;
        assert repl(m) == s[i..m.end];
        assert ReplacesBySelf(p, s, repl, m.end);
        SubIdentity(p, s, repl, m.end);
        assert Sub(p, s, repl, i) == s[i..m.end] + s[m.end..];
        SuffixSplit(s, i, m.end);
      } else {
        assert ReplacesBySelf(p, s, repl, i + 1);
        SubIdentity(p, s, repl, i + 1);
        assert Sub(p, s, repl, i) == [s[i]] + s[i + 1..];
        SuffixSplit(s, i, i + 1);
        assert s[i..i + 1] == [s[i]];
      }
    } else {
      assert s[i..] == [];
    }
  }

  /** With no match anywhere the substitution changes nothing, whatever the replacement. */
  lemma NoMatchNoChange(p: Pattern, s: string, repl: Match -> string)
    requires forall j :: 0 <= j <= |s| ==> MatchAt(p, s, j).None?
    ensures Sub(p, s, repl, 0) == s
  {
    assert ReplacesBySelf(p, s, repl, 0) by {
      forall j | 0 <= j <= |s| ensures KeepsMatchAt(p, s, repl, j) {
        assert MatchAt(p, s, j).None?;
      }
    }
    SubIdentity(p, s, repl, 0);
  }

  /** `line[..n]` is a `[`, one or more capital letters, and a `]`. */
  ghost predicate TagOfLength(line: string, n: nat)
  {
    3 <= n <= |line| && line[0] == '[' && line[n - 1] == ']' &&
    forall k :: 1 <= k < n - 1 ==> IsUpper(line[k])
  }

  /** `^\[[A-Z]+\]` at the start of a line: the length of the tag, if
      there is one; the tag is unique when it exists. */
  function LogLevelTag(line: string): (r: Option<nat>)
    ensures r.Some? ==> TagOfLength(line, r.value)
    ensures r.None? ==> forall n :: !TagOfLength(line, n)
    ensures forall n, n' :: TagOfLength(line, n) && TagOfLength(line, n') ==> n == n'
  {
    if |line| < 3 || line[0] != '[' then None
    else
      var j := SkipUpper(line, 1);
      if j == 1 || j == |line| || line[j] != ']' then None
      else Some(j + 1)
  }

  /** `^[>A-Za-z]`: the line begins with `>` or an ASCII letter. */
  predicate DescriptionLine(line: string)
  {
    |line| > 0 && (line[0] == '>' || IsAsciiLetter(line[0]))
  }
}
