/**
  Models of the Python `str` operations that the fixers use: whitespace
  stripping, prefix and suffix tests, `split`, `join`, `replace`,
  `splitlines` and text-mode `readlines`, plus the sorted listing used for
  directory scans.
 */
module Text {

  /** A non-empty sequence is its front followed by its last element. */
  lemma FrontLast<T>(s: seq<T>)
    requires |s| > 0
    ensures s == s[..|s| - 1] + [s[|s| - 1]]
  {
  }

  /** A slice is the slices on either side of any point inside it. */
  lemma SliceSplit<T>(s: seq<T>, i: nat, j: nat, k: nat)
    requires i <= j <= k <= |s|
    ensures s[i..k] == s[i..j] + s[j..k]
  {
  }

  /** A suffix is split the same way. */
  lemma SuffixSplit<T>(s: seq<T>, i: nat, j: nat)
    requires i <= j <= |s|
    ensures s[i..] == s[i..j] + s[j..]
  {
  }

  /** And so is a prefix. */
  lemma PrefixSplit<T>(s: seq<T>, j: nat, k: nat)
    requires j <= k <= |s|
    ensures s[..k] == s[..j] + s[j..k]
  {
  }

  /** The pieces around one element of a concatenation. */
  lemma Around<T>(a: seq<T>, x: T, b: seq<T>)
    ensures (a + [x] + b)[..|a|] == a && (a + [x] + b)[|a|] == x && (a + [x] + b)[|a| + 1..] == b
  {
  }

  lemma FirstRest<T>(s: seq<T>)
    requires |s| > 0
    ensures s == [s[0]] + s[1..]
  {
  }

  lemma Assoc<T>(a: seq<T>, b: seq<T>, c: seq<T>)
    ensures (a + b) + c == a + (b + c)
  {
  }

  /** Dropping one more element of a suffix. */
  lemma DropOne<T>(s: seq<T>, i: nat)
    requires i < |s|
    ensures s[i..][1..] == s[i + 1..] && s[i..][0] == s[i]
  {
  }

  lemma EmptyRight<T>(x: seq<T>)
    ensures x + [] == x
  {
  }

  lemma EmptyLeft<T>(x: seq<T>)
    ensures [] + x == x
  {
  }

  /** A prefix one longer is the shorter prefix and one more element. */
  lemma PrefixSnoc<T>(s: seq<T>, i: nat)
    requires i < |s|
    ensures s[..i + 1] == s[..i] + [s[i]]
  {
  }

  /** Dropping the first element of a concatenation with a non-empty front. */
  lemma TailOfConcat<T>(a: seq<T>, b: seq<T>)
    requires |a| > 0
    ensures (a + b)[1..] == a[1..] + b
  {
  }

  /** Python's `str.isspace()` for one character. */
  predicate IsSpace(c: char)
  {
    || c == ' ' || ('\t' <= c <= '\r') || ('\U{1C}' <= c <= '\U{1F}')
    || c == '\U{85}' || c == '\U{A0}' || c == '\U{1680}'
    || ('\U{2000}' <= c <= '\U{200A}') || c == '\U{2028}' || c == '\U{2029}'
    || c == '\U{202F}' || c == '\U{205F}' || c == '\U{3000}'
  }

  /** A line boundary recognised by Python's `str.splitlines()`. */
  predicate IsLineBoundary(c: char)
  {
    || c == '\n' || c == '\r' || c == '\U{0B}' || c == '\U{0C}'
    || ('\U{1C}' <= c <= '\U{1E}') || c == '\U{85}' || c == '\U{2028}' || c == '\U{2029}'
  }

  predicate IsAsciiLetter(c: char)
  {
    ('A' <= c <= 'Z') || ('a' <= c <= 'z')
  }

  predicate StartsWith(s: string, prefix: string)
  {
    |prefix| <= |s| && s[..|prefix|] == prefix
  }

  predicate EndsWith(s: string, suffix: string)
  {
    |suffix| <= |s| && s[|s| - |suffix|..] == suffix
  }

  /** Python's `sub in s`. */
  predicate Contains(s: string, sub: string)
    decreases |s|
  {
    StartsWith(s, sub) || (|s| > 0 && Contains(s[1..], sub))
  }

  /** Python's `s.rstrip()`. */
  function RStrip(s: string): (r: string)
    ensures |r| <= |s| && r == s[..|r|]
    ensures r == [] || !IsSpace(r[|r| - 1])
  {
    if |s| > 0 && IsSpace(s[|s| - 1]) then RStrip(s[..|s| - 1]) else s
  }

  /** What `rstrip` removes is whitespace. */
  lemma {:induction false} RStripDropsSpace(s: string)
    ensures forall i :: |RStrip(s)| <= i < |s| ==> IsSpace(s[i])
    decreases |s|
  {
    if |s| > 0 && IsSpace(s[|s| - 1]) {
      RStripDropsSpace(s[..|s| - 1]);
    }
  }

  /** Python's `s.lstrip()`. */
  function LStrip(s: string): (r: string)
    ensures |r| <= |s| && r == s[|s| - |r|..]
    ensures r == [] || !IsSpace(r[0])
  {
    if |s| > 0 && IsSpace(s[0]) then LStrip(s[1..]) else s
  }

  /** What `lstrip` removes is whitespace. */
  lemma {:induction false} LStripDropsSpace(s: string)
    ensures forall i :: 0 <= i < |s| - |LStrip(s)| ==> IsSpace(s[i])
    decreases |s|
  {
    if |s| > 0 && IsSpace(s[0]) {
      LStripDropsSpace(s[1..]);
      forall i | 1 <= i < |s| - |LStrip(s)| ensures IsSpace(s[i]) {
        assert s[i] == s[1..][i - 1];
      }
    }
  }

  /** Python's `s.strip()`: whitespace off both ends. */
  function Strip(s: string): (r: string)
    ensures r == [] || (!IsSpace(r[0]) && !IsSpace(r[|r| - 1]))
    ensures |r| <= |LStrip(s)| && r == LStrip(s)[..|r|]
  {
    RStrip(LStrip(s))
  }

  /** `strip` gives the empty text exactly when the text is all whitespace. */
  lemma StripEmpty(s: string)
    ensures Strip(s) == [] <==> forall i :: 0 <= i < |s| ==> IsSpace(s[i])
  {
    var left := LStrip(s);
    LStripDropsSpace(s);
    RStripDropsSpace(left);
    if Strip(s) != [] {
      assert !IsSpace(s[|s| - |left|]);
    }
  }

  /** No whitespace at either end: what `str.strip()` returns. */
  predicate Stripped(x: string)
  {
    x == [] || (!IsSpace(x[0]) && !IsSpace(x[|x| - 1]))
  }

  lemma StripOfStripped(s: string)
    requires Stripped(s)
    ensures Strip(s) == s
  {
  }

  /** Stripping adds no character. */
  lemma StripKeepsOut(x: string, c: char)
    requires c !in x
    ensures c !in Strip(x)
  {
    var left := LStrip(x);
    var r := Strip(x);
    var a := |x| - |left|;
    forall i | 0 <= i < |r| ensures r[i] != c {
      assert r[i] == left[i] == x[a + i];
    }
  }

  lemma RStripOfStripped(s: string)
    requires s == [] || !IsSpace(s[|s| - 1])
    ensures RStrip(s) == s
  {
  }

  /** Index of the first `c` in `s`, or `|s|` when there is none. */
  function IndexOf(s: string, c: char): (i: nat)
    ensures i <= |s|
    ensures i < |s| ==> s[i] == c
    ensures forall j :: 0 <= j < i ==> s[j] != c
    ensures i == |s| <==> c !in s
  {
    if |s| == 0 then 0 else if s[0] == c then 0 else 1 + IndexOf(s[1..], c)
  }

  /** Python's `sep.join(parts)`. */
  function Join(sep: string, parts: seq<string>): string
  {
    if |parts| == 0 then ""
    else if |parts| == 1 then parts[0]
    else parts[0] + sep + Join(sep, parts[1..])
  }

  lemma Pair<T>(x: T, y: T)
    ensures [x] + [y] == [x, y]
  {
  }

  /** Joining two parts puts the separator between them. */
  lemma JoinTwo(sep: string, a: string, b: string)
    ensures Join(sep, [a, b]) == a + sep + b
  {
    assert [a, b][1..] == [b];
  }

  /** Joining three parts puts the separator between each pair. */
  lemma JoinThree(sep: string, a: string, b: string, c: string)
    ensures Join(sep, [a, b, c]) == a + sep + (b + sep + c)
  {
    var parts := [a, b, c];
    assert parts[1..] == [b, c];
    assert parts[1..][1..] == [c];
    assert Join(sep, parts[1..]) == b + sep + c;
  }

  /** Python's `s.split(sep)` for a one-character separator. */
  function Split(s: string, sep: char): (parts: seq<string>)
    ensures |parts| >= 1
    ensures forall k :: 0 <= k < |parts| ==> sep !in parts[k]
    decreases |s|
  {
    var i := IndexOf(s, sep);
    if i == |s| then [s] else [s[..i]] + Split(s[i + 1..], sep)
  }

  /** One step of the split: the text before the first separator, then the
      split of the rest. */
  lemma SplitStep(s: string, sep: char)
    requires IndexOf(s, sep) < |s|
    ensures Split(s, sep) == [s[..IndexOf(s, sep)]] + Split(s[IndexOf(s, sep) + 1..], sep)
  {
  }

  lemma ConsTail<T>(x: T, ys: seq<T>)
    ensures ([x] + ys)[0] == x && ([x] + ys)[1..] == ys
  {
  }

  lemma ConsIndex<T>(x: T, ys: seq<T>, k: nat)
    requires 0 < k <= |ys|
    ensures ([x] + ys)[k] == ys[k - 1]
  {
  }

  /** Every character of every piece comes from the split text. */
  lemma {:induction false} SplitChars(s: string, sep: char)
    ensures forall k, j :: 0 <= k < |Split(s, sep)| && 0 <= j < |Split(s, sep)[k]| ==> Split(s, sep)[k][j] in s
    decreases |s|
  {
    var i := IndexOf(s, sep);
    if i < |s| {
      SplitChars(s[i + 1..], sep);
      var rest := Split(s[i + 1..], sep);
      assert Split(s, sep) == [s[..i]] + rest;
      forall k, j | 0 <= k < |Split(s, sep)| && 0 <= j < |Split(s, sep)[k]| ensures Split(s, sep)[k][j] in s {
        if k == 0 {
          assert s[..i][j] == s[j];
        } else {
          assert rest[k - 1][j] in s[i + 1..];
        }
      }
    }
  }

  /** Splitting and joining again on the same separator gives the input back. */
  lemma {:induction false} JoinSplit(s: string, sep: char)
    ensures Join([sep], Split(s, sep)) == s
    decreases |s|
  {
    var i := IndexOf(s, sep);
    if i < |s| {
      JoinSplit(s[i + 1..], sep);
      var rest := Split(s[i + 1..], sep);
      assert Split(s, sep) == [s[..i]] + rest;
      assert s == s[..i] + [sep] + s[i + 1..];
    }
  }

  /** Joining separator-free parts and splitting again gives the parts back. */
  lemma {:induction false} SplitJoin(parts: seq<string>, sep: char)
    requires |parts| >= 1
    requires forall k :: 0 <= k < |parts| ==> sep !in parts[k]
    ensures Split(Join([sep], parts), sep) == parts
    decreases |parts|
  {
    var s := Join([sep], parts);
    if |parts| == 1 {
      assert s == parts[0];
    } else {
      var rest := Join([sep], parts[1..]);
      assert s == parts[0] + [sep] + rest;
      var i := |parts[0]|;
      Around(parts[0], sep, rest);
      forall j | 0 <= j < i ensures s[j] != sep {
        assert s[j] == s[..i][j];
      }
      IndexOfFirst(s, sep, i);
      SplitJoin(parts[1..], sep);
      FirstRest(parts);
    }
  }

  /** A character in neither the parts nor the separator is not in their join. */
  lemma {:induction false} JoinAvoids(sep: string, parts: seq<string>, c: char)
    requires c !in sep
    requires forall k :: 0 <= k < |parts| ==> c !in parts[k]
    ensures c !in Join(sep, parts)
    decreases |parts|
  {
    if |parts| > 1 {
      JoinAvoids(sep, parts[1..], c);
    }
  }

  /** Python's `s.replace(pattern, repl)` for a non-empty pattern: every
      non-overlapping occurrence, left to right. */
  function Replace(s: string, pattern: string, repl: string): string
    requires |pattern| > 0
    decreases |s|
  {
    if |s| < |pattern| then s
    else if s[..|pattern|] == pattern then repl + Replace(s[|pattern|..], pattern, repl)
    else [s[0]] + Replace(s[1..], pattern, repl)
  }

  /** Replacing a pattern by itself changes nothing. */
  lemma {:induction false} ReplaceBySelf(s: string, pattern: string)
    requires |pattern| > 0
    ensures Replace(s, pattern, pattern) == s
    decreases |s|
  {
    if |s| < |pattern| {
    } else if s[..|pattern|] == pattern {
      ReplaceBySelf(s[|pattern|..], pattern);
      assert s == pattern + s[|pattern|..];
    } else {
      ReplaceBySelf(s[1..], pattern);
      assert s == [s[0]] + s[1..];
    }
  }

  /** A string without the pattern's first character is left alone. */
  lemma {:induction false} ReplaceAbsent(s: string, pattern: string, repl: string)
    requires |pattern| > 0 && pattern[0] !in s
    ensures Replace(s, pattern, repl) == s
    decreases |s|
  {
    if |s| >= |pattern| {
      assert s[0] != pattern[0];
      assert s[..|pattern|] != pattern;
      ReplaceAbsent(s[1..], pattern, repl);
      assert s == [s[0]] + s[1..];
    }
  }

  /** Replacement distributes over a prefix that holds no occurrence start. */
  lemma {:induction false} ReplaceAppend(a: string, b: string, pattern: string, repl: string)
    requires |pattern| > 0 && pattern[0] !in a
    ensures Replace(a + b, pattern, repl) == a + Replace(b, pattern, repl)
    decreases |a|
  {
    if |a| > 0 {
      var s := a + b;
      assert s[0] == a[0] && a[0] != pattern[0];
      assert s[1..] == a[1..] + b;
      ReplaceAppend(a[1..], b, pattern, repl);
      if |s| >= |pattern| {
        assert s[..|pattern|][0] != pattern[0];
        calc {
          Replace(s, pattern, repl);
          [s[0]] + Replace(a[1..] + b, pattern, repl);
          [a[0]] + (a[1..] + Replace(b, pattern, repl));
          { assert a == [a[0]] + a[1..]; }
          a + Replace(b, pattern, repl);
        }
      } else {
        assert Replace(b, pattern, repl) == b;
      }
    } else {
      assert a + b == b;
    }
  }

  /** Replacing at the very front of the string. */
  lemma ReplaceFront(b: string, pattern: string, repl: string)
    requires |pattern| > 0
    ensures Replace(pattern + b, pattern, repl) == repl + Replace(b, pattern, repl)
  {
    var s := pattern + b;
    assert s[..|pattern|] == pattern;
    assert s[|pattern|..] == b;
  }

  /** Index of the first line boundary, or `|s|`. */
  function BoundaryIndex(s: string): (i: nat)
    ensures i <= |s|
    ensures i < |s| ==> IsLineBoundary(s[i])
    ensures forall j :: 0 <= j < i ==> !IsLineBoundary(s[j])
  {
    if |s| == 0 then 0 else if IsLineBoundary(s[0]) then 0 else 1 + BoundaryIndex(s[1..])
  }

  /** Python's `s.splitlines()` (line ends dropped, `\r\n` counts once). */
  function SplitLines(s: string): (lines: seq<string>)
    ensures forall k :: 0 <= k < |lines| ==> NoBoundary(lines[k])
    decreases |s|
  {
    if s == "" then []
    else
      var i := BoundaryIndex(s);
      if i == |s| then [s]
      else
        var skip := if s[i] == '\r' && i + 1 < |s| && s[i + 1] == '\n' then 2 else 1;
        [s[..i]] + SplitLines(s[i + skip..])
  }

  predicate NoBoundary(s: string)
  {
    forall j :: 0 <= j < |s| ==> !IsLineBoundary(s[j])
  }

  lemma {:induction false} BoundaryIndexOfClean(s: string)
    requires NoBoundary(s)
    ensures BoundaryIndex(s) == |s|
    decreases |s|
  {
    if |s| > 0 {
      BoundaryIndexOfClean(s[1..]);
    }
  }

  lemma {:induction false} BoundaryIndexOfPrefix(a: string, b: string)
    requires NoBoundary(a)
    requires |b| > 0 && b[0] == '\n'
    ensures BoundaryIndex(a + b) == |a|
    decreases |a|
  {
    if |a| > 0 {
      assert (a + b)[1..] == a[1..] + b;
      BoundaryIndexOfPrefix(a[1..], b);
    }
  }

  lemma SplitLinesSingle(line: string)
    requires line != "" && NoBoundary(line)
    ensures SplitLines(line) == [line]
  {
    BoundaryIndexOfClean(line);
  }

  lemma SplitLinesCons(first: string, rest: string)
    requires NoBoundary(first)
    ensures SplitLines(first + "\n" + rest) == [first] + SplitLines(rest)
  {
    var s := first + "\n" + rest;
    assert s == first + ("\n" + rest);
    BoundaryIndexOfPrefix(first, "\n" + rest);
    assert s[..|first|] == first;
    assert s[|first| + 1..] == rest;
  }

  lemma {:induction false} JoinLastNonEmpty(lines: seq<string>)
    requires |lines| > 0 && lines[|lines| - 1] != ""
    ensures Join("\n", lines) != ""
    decreases |lines|
  {
    if |lines| > 1 {
      JoinLastNonEmpty(lines[1..]);
    }
  }

  /** Boundary-free lines joined by `\n`, the last one non-empty, split back into themselves. */
  lemma {:induction false} SplitLinesJoin(lines: seq<string>)
    requires |lines| > 0 && lines[|lines| - 1] != ""
    requires forall k :: 0 <= k < |lines| ==> NoBoundary(lines[k])
    ensures SplitLines(Join("\n", lines)) == lines
    decreases |lines|
  {
    if |lines| == 1 {
      SplitLinesSingle(lines[0]);
    } else {
      var rest := lines[1..];
      assert rest[|rest| - 1] == lines[|lines| - 1];
      assert forall k :: 0 <= k < |rest| ==> NoBoundary(rest[k]) by {
        forall k | 0 <= k < |rest| ensures NoBoundary(rest[k]) {
          assert rest[k] == lines[k + 1];
        }
      }
      SplitLinesJoin(rest);
      assert NoBoundary(lines[0]);
      SplitLinesCons(lines[0], Join("\n", rest));
      FirstRest(lines);
    }
  }

  /** Lines joined by `\n`, each followed by one: a text that ends in a newline. */
  lemma {:induction false} SplitLinesJoinNewline(lines: seq<string>)
    requires |lines| > 0
    requires forall k :: 0 <= k < |lines| ==> NoBoundary(lines[k])
    ensures SplitLines(Join("\n", lines) + "\n") == lines
    decreases |lines|
  {
    if |lines| == 1 {
      assert Join("\n", lines) + "\n" == lines[0] + "\n" + "";
      SplitLinesCons(lines[0], "");
    } else {
      var rest := Join("\n", lines[1..]) + "\n";
      assert Join("\n", lines) + "\n" == lines[0] + "\n" + rest;
      SplitLinesCons(lines[0], rest);
      SplitLinesJoinNewline(lines[1..]);
      assert lines == [lines[0]] + lines[1..];
    }
  }

  lemma NoBoundaryAppend(a: string, b: string)
    requires NoBoundary(a) && NoBoundary(b)
    ensures NoBoundary(a + b)
  {
    forall j | 0 <= j < |a + b| ensures !IsLineBoundary((a + b)[j]) {
      if j < |a| {
        assert (a + b)[j] == a[j];
      } else {
        assert (a + b)[j] == b[j - |a|];
      }
    }
  }

  /** Stripping a line never brings a line boundary into it. */
  lemma StripKeepsNoBoundary(s: string)
    requires NoBoundary(s)
    ensures NoBoundary(Strip(s))
  {
    var l := LStrip(s);
    NoBoundaryDrop(s, |s| - |l|);
    NoBoundaryTake(l, |Strip(s)|);
  }

  lemma NoBoundaryDrop(s: string, i: nat)
    requires NoBoundary(s) && i <= |s|
    ensures NoBoundary(s[i..])
  {
    forall j | 0 <= j < |s| - i ensures !IsLineBoundary(s[i..][j]) {
      assert s[i..][j] == s[i + j];
    }
  }

  lemma NoBoundaryTake(s: string, i: nat)
    requires NoBoundary(s) && i <= |s|
    ensures NoBoundary(s[..i])
  {
    forall j | 0 <= j < i ensures !IsLineBoundary(s[..i][j]) {
      assert s[..i][j] == s[j];
    }
  }

  /** One leading space before an already stripped text is all `strip` removes. */
  lemma StripLeadingSpace(x: string)
    requires x != [] && !IsSpace(x[0]) && !IsSpace(x[|x| - 1])
    ensures Strip(" " + x) == x
  {
    assert (" " + x)[1..] == x;
    assert LStrip(" " + x) == LStrip(x);
    StripOfStripped(x);
  }

  function Concat(parts: seq<string>): string
  {
    if |parts| == 0 then "" else parts[0] + Concat(parts[1..])
  }

  /** Text-mode `file.readlines()`: each line keeps its `\n`; only the last may lack one. */
  function ReadLines(s: string): (lines: seq<string>)
    ensures Concat(lines) == s
    ensures forall k :: 0 <= k < |lines| ==> lines[k] != ""
    ensures forall k :: 0 <= k < |lines| - 1 ==> lines[k][|lines[k]| - 1] == '\n'
    ensures forall k, j :: 0 <= k < |lines| && 0 <= j < |lines[k]| - 1 ==> lines[k][j] != '\n'
    decreases |s|
  {
    if s == "" then []
    else
      var i := IndexOf(s, '\n');
      if i == |s| then [s]
      else
        var rest := ReadLines(s[i + 1..]);
        assert s == s[..i + 1] + s[i + 1..];
        [s[..i + 1]] + rest
  }

  /** Lines that each end with their only `\n` are read back unchanged. */
  lemma {:induction false} ReadLinesConcat(lines: seq<string>)
    requires forall k :: 0 <= k < |lines| ==> |lines[k]| > 0 && lines[k][|lines[k]| - 1] == '\n'
    requires forall k, j :: 0 <= k < |lines| && 0 <= j < |lines[k]| - 1 ==> lines[k][j] != '\n'
    ensures ReadLines(Concat(lines)) == lines
    decreases |lines|
  {
    if |lines| > 0 {
      var s := Concat(lines);
      var l := lines[0];
      assert s == l + Concat(lines[1..]);
      assert IndexOf(s, '\n') == |l| - 1 by {
        assert s[|l| - 1] == '\n';
        forall j | 0 <= j < |l| - 1 ensures s[j] != '\n' {
          assert s[j] == l[j];
        }
        IndexOfFirst(s, '\n', |l| - 1);
      }
      assert s[..|l|] == l;
      assert s[|l|..] == Concat(lines[1..]);
      ReadLinesConcat(lines[1..]);
    }
  }

  lemma IndexOfFirst(s: string, c: char, i: nat)
    requires i < |s| && s[i] == c
    requires forall j :: 0 <= j < i ==> s[j] != c
    ensures IndexOf(s, c) == i
  {
  }

  // ---------------------------------------------------------------------
  // Lexicographic order, used as the order of a directory listing.

  predicate LexLe(a: string, b: string)
    decreases |a|
  {
    |a| == 0 || (|b| > 0 && (a[0] < b[0] || (a[0] == b[0] && LexLe(a[1..], b[1..]))))
  }

  lemma {:induction false} LexLeTotal(a: string, b: string)
    ensures LexLe(a, b) || LexLe(b, a)
    decreases |a|
  {
    if |a| > 0 && |b| > 0 && a[0] == b[0] {
      LexLeTotal(a[1..], b[1..]);
    }
  }

  lemma {:induction false} LexLeAntisymmetric(a: string, b: string)
    requires LexLe(a, b) && LexLe(b, a)
    ensures a == b
    decreases |a|
  {
    if |a| > 0 {
      LexLeAntisymmetric(a[1..], b[1..]);
      assert a == [a[0]] + a[1..] && b == [b[0]] + b[1..];
    }
  }

  lemma {:induction false} LexLeTransitive(a: string, b: string, c: string)
    requires LexLe(a, b) && LexLe(b, c)
    ensures LexLe(a, c)
    decreases |a|
  {
    if |a| > 0 && a[0] == b[0] && b[0] == c[0] {
      LexLeTransitive(a[1..], b[1..], c[1..]);
    }
  }

  predicate IsLeast(m: string, s: set<string>)
  {
    m in s && forall x :: x in s ==> LexLe(m, x)
  }

  lemma {:induction false} LeastExists(s: set<string>)
    requires s != {}
    ensures exists m :: IsLeast(m, s)
    decreases |s|
  {
    var x :| x in s;
    if s - {x} == {} {
      assert s == {x};
      LexLeTotal(x, x);
      assert IsLeast(x, s);
    } else {
      LeastExists(s - {x});
      var m :| IsLeast(m, s - {x});
      LexLeTotal(m, x);
      if LexLe(m, x) {
        assert IsLeast(m, s);
      } else {
        forall y | y in s ensures LexLe(x, y) {
          if y != x {
            LexLeTransitive(x, m, y);
          } else {
            LexLeTotal(x, x);
          }
        }
        assert IsLeast(x, s);
      }
    }
  }

  lemma LeastUnique(s: set<string>)
    ensures forall m, n :: IsLeast(m, s) && IsLeast(n, s) ==> m == n
  {
    forall m, n | IsLeast(m, s) && IsLeast(n, s) ensures m == n {
      LexLeAntisymmetric(m, n);
    }
  }

  predicate Sorted(r: seq<string>)
  {
    forall i, j :: 0 <= i < j < |r| ==> LexLe(r[i], r[j]) && r[i] != r[j]
  }

  /** The elements of a finite set of names, in lexicographic order. */
  function SortedSet(s: set<string>): (r: seq<string>)
    ensures |r| == |s|
    ensures forall x :: x in r <==> x in s
    ensures Sorted(r)
    decreases |s|
  {
    if s == {} then []
    else
      LeastExists(s);
      LeastUnique(s);
      var m :| IsLeast(m, s);
      var rest := SortedSet(s - {m});
      [m] + rest
  }
}
