/**
  Repairing broken image links in `README.md`: an image whose path does
  not exist in the working copy is pointed at the longest trailing part of
  its path that does, which finds images moved up one or more directories.
 */
module Readme {
  import opened Wrappers
  import opened Text
  import opened Git
  import opened Regex
  import opened FixersBase

  // ---------------------------------------------------------------------
  // find_new_filename

  /** The segments of a path with `\` read as `/` and empty segments dropped. */
  function DropEmpty(parts: seq<string>): (r: seq<string>)
    ensures forall k :: 0 <= k < |r| ==> r[k] != "" && r[k] in parts
    decreases |parts|
  {
    if parts == [] then []
    else (if parts[0] == "" then [] else [parts[0]]) + DropEmpty(parts[1..])
  }

  /** A single-character pattern replaced by a text without it is gone. */
  lemma {:induction false} ReplaceRemoves(s: string, c: char, repl: string)
    requires c !in repl
    ensures c !in Replace(s, [c], repl)
    decreases |s|
  {
    if |s| >= 1 {
      ReplaceRemoves(s[1..], c, repl);
      if s[..1] == [c] {
        assert s[1..] == s[|[c]|..];
      }
    }
  }

  function PathSegments(filename: string): (parts: seq<string>)
    ensures forall k :: 0 <= k < |parts| ==> parts[k] != "" && '/' !in parts[k] && '\\' !in parts[k]
  {
    var normalised := Replace(filename, "\\", "/");
    ReplaceRemoves(filename, '\\', "/");
    var split := Split(normalised, '/');
    assert forall k :: 0 <= k < |split| ==> '\\' !in split[k] by {
      forall k | 0 <= k < |split| ensures '\\' !in split[k] {
        SplitAvoids(normalised, '/', '\\', k);
      }
    }
    DropEmpty(split)
  }

  /** A character absent from a string is absent from each piece of its split. */
  lemma {:induction false} SplitAvoids(s: string, sep: char, c: char, k: nat)
    requires c !in s && k < |Split(s, sep)|
    ensures c !in Split(s, sep)[k]
    decreases |s|
  {
    var i := IndexOf(s, sep);
    if i < |s| && k > 0 {
      var t := s[i + 1..];
      assert forall j :: 0 <= j < |t| ==> t[j] == s[i + 1 + j];
      SplitAvoids(t, sep, c, k - 1);
    } else if i < |s| {
      assert forall j :: 0 <= j < |s[..i]| ==> s[..i][j] == s[j];
    }
  }

  /** The segments that `parts`, taken from the directory `cur` of the
      working copy, resolves to: `.` stays and `..` goes up, each only from
      a directory, as the operating system resolves them; `None` when the
      walk fails or leaves the working copy, whose outside is not modelled. */
  function Resolve(t: WorkTree, cur: seq<string>, parts: seq<string>): (r: Option<seq<string>>)
    decreases |parts|
  {
    if parts == [] then Some(cur)
    else if parts[0] == "." || parts[0] == ".." then
      if !IsDir(t, JoinPath(cur)) then None
      else if parts[0] == "." then Resolve(t, cur, parts[1..])
      else if cur == [] then None
      else Resolve(t, cur[..|cur| - 1], parts[1..])
    else Resolve(t, cur + [parts[0]], parts[1..])
  }

  /** `os.path.isfile` of the working copy's root joined with `parts`: the
      path ends in a name and resolves to a file. */
  predicate IsFileAt(t: WorkTree, parts: seq<string>)
  {
    && |parts| > 0 && parts[|parts| - 1] != "." && parts[|parts| - 1] != ".."
    && var r := Resolve(t, [], parts);
       r.Some? && JoinPath(r.value) in t.files
  }

  /** No segment is `.` or `..`. */
  predicate Plain(parts: seq<string>)
  {
    forall k :: 0 <= k < |parts| ==> parts[k] != "." && parts[k] != ".."
  }

  /** Segments without `.` and `..` resolve to themselves. */
  lemma {:induction false} PlainResolve(t: WorkTree, cur: seq<string>, parts: seq<string>)
    requires Plain(parts)
    ensures Resolve(t, cur, parts) == Some(cur + parts)
    decreases |parts|
  {
    if parts == [] {
      EmptyRight(cur);
    } else {
      assert Plain(parts[1..]) by {
        forall k | 0 <= k < |parts[1..]| ensures parts[1..][k] != "." && parts[1..][k] != ".." {
          assert parts[1..][k] == parts[k + 1];
        }
      }
      PlainResolve(t, cur + [parts[0]], parts[1..]);
      Assoc(cur, [parts[0]], parts[1..]);
      FirstRest(parts);
    }
  }

  /** For a path without `.` and `..`, `isfile` is the literal lookup. */
  lemma PlainIsFileAt(t: WorkTree, parts: seq<string>)
    requires |parts| > 0 && Plain(parts)
    ensures IsFileAt(t, parts) <==> JoinPath(parts) in t.files
  {
    PlainResolve(t, [], parts);
    EmptyLeft(parts);
  }

  /** A `.` segment at the root changes nothing: `/./a.png` names `a.png`. */
  lemma DotSegmentResolved(t: WorkTree, rest: seq<string>)
    requires |rest| > 0 && Plain(rest)
    ensures IsFileAt(t, ["."] + rest) <==> JoinPath(rest) in t.files
  {
    var parts := ["."] + rest;
    assert parts[0] == "." && parts[1..] == rest;
    assert JoinPath([]) == "";
    PlainResolve(t, [], rest);
    EmptyLeft(rest);
  }

  /** A `..` segment at the root leaves the working copy: such a path names
      none of its files. */
  lemma ParentOfRootOutside(t: WorkTree, rest: seq<string>)
    ensures !IsFileAt(t, [".."] + rest)
  {
    var parts := [".."] + rest;
    assert parts[0] == ".." && parts[1..] == rest;
  }

  /** The first `j >= k` whose suffix `parts[j..]` names a file, or `|parts|`. */
  function ExistingSuffix(t: WorkTree, parts: seq<string>, k: nat): (r: nat)
    requires k <= |parts|
    ensures k <= r <= |parts|
    ensures r < |parts| ==> IsFileAt(t, parts[r..])
    ensures forall j :: k <= j < r ==> !IsFileAt(t, parts[j..])
    decreases |parts| - k
  {
    if k == |parts| || IsFileAt(t, parts[k..]) then k
    else ExistingSuffix(t, parts, k + 1)
  }

  /** `find_new_filename`: the longest trailing run of the path's segments
      that names a file, with a leading `/`; the path itself when none does. */
  function NewFilename(t: WorkTree, filename: string): (r: string)
    ensures var parts := PathSegments(filename);
      (forall k :: 0 <= k < |parts| ==> !IsFileAt(t, parts[k..])) ==> r == filename
    ensures var parts := PathSegments(filename);
      (exists k :: 0 <= k < |parts| && IsFileAt(t, parts[k..])) ==>
        exists k :: 0 <= k < |parts| && IsFileAt(t, parts[k..]) && r == "/" + JoinPath(parts[k..])
          && forall j :: 0 <= j < k ==> !IsFileAt(t, parts[j..])
  {
    var parts := PathSegments(filename);
    var k := ExistingSuffix(t, parts, 0);
    if k < |parts| then "/" + JoinPath(parts[k..]) else filename
  }

  /** The loop of `find_new_filename`, dropping one leading segment at a time. */
  method FindNewFilename(g: GitWorkingDir, filename: string) returns (r: string)
    ensures r == NewFilename(g.State(), filename)
  {
    ghost var all := PathSegments(filename);
    ghost var k := 0;
    var parts := PathSegments(filename);
    while parts != []
      invariant k <= |all| && parts == all[k..]
      invariant ExistingSuffix(g.State(), all, 0) == ExistingSuffix(g.State(), all, k)
      decreases |parts|
    {
      if IsFileAt(g.State(), parts) {
        return "/" + JoinPath(parts);
      }
      parts := parts[1..];
      k := k + 1;
    }
    return filename;
  }

  /** Dropping the empty segments of `[""] + q` leaves `q` when `q` has none. */
  lemma {:induction false} DropEmptyClean(q: seq<string>)
    requires forall k :: 0 <= k < |q| ==> q[k] != ""
    ensures DropEmpty([""] + q) == q
    ensures DropEmpty(q) == q
    decreases |q|
  {
    ConsTail("", q);
    assert DropEmpty([""] + q) == [] + DropEmpty(q);
    EmptyLeft(DropEmpty(q));
    if q != [] {
      DropEmptyClean(q[1..]);
      FirstRest(q);
    }
  }

  /** The segments of `/a/b/c` are `a`, `b`, `c`. */
  lemma AbsoluteSegments(q: seq<string>)
    requires |q| >= 1
    requires forall k :: 0 <= k < |q| ==> q[k] != "" && '/' !in q[k] && '\\' !in q[k]
    ensures PathSegments("/" + JoinPath(q)) == q
  {
    var f := "/" + JoinPath(q);
    JoinAvoids("/", q, '\\');
    ReplaceAbsent(f, "\\", "/");
    assert Join(['/'], [""] + q) == f by {
      assert ([""] + q)[1..] == q;
    }
    SplitJoin([""] + q, '/');
    DropEmptyClean(q);
  }

  /** A repaired path repairs to itself: a second run changes no image. */
  lemma NewFilenameIdempotent(t: WorkTree, filename: string)
    ensures NewFilename(t, NewFilename(t, filename)) == NewFilename(t, filename)
  {
    var parts := PathSegments(filename);
    var k := ExistingSuffix(t, parts, 0);
    if k < |parts| {
      var q := parts[k..];
      AbsoluteSegments(q);
      assert q[0..] == q;
    }
  }

  /** No two neighbouring characters of `s` are both `/`. */
  ghost predicate NoDoubleSlash(s: string)
  {
    forall j, m :: 0 <= j && m == j + 1 && m < |s| ==> !(s[j] == '/' && s[m] == '/')
  }

  /** A path that already names a file is kept. */
  lemma ExistingPathKept(t: WorkTree, filename: string)
    requires |filename| >= 2 && filename[0] == '/' && '\\' !in filename
    requires NoDoubleSlash(filename)
    requires filename[|filename| - 1] != '/'
    requires IsFileAt(t, Split(filename[1..], '/'))
    ensures NewFilename(t, filename) == filename
  {
    var q := Split(filename[1..], '/');
    JoinSplit(filename[1..], '/');
    NoDoubleSlashSuffix(filename, 1);
    forall k | 0 <= k < |q| ensures q[k] != "" && '\\' !in q[k] {
      SplitPieceNonEmpty(filename[1..], k);
      SplitAvoids(filename[1..], '/', '\\', k);
    }
    assert filename == "/" + JoinPath(q);
    AbsoluteSegments(q);
    assert q[0..] == q;
  }

  /** A path written with a leading `./` that names a file is kept as
      written: `/./a.png` stays when `a.png` exists. */
  lemma DotPathKept(t: WorkTree, q: seq<string>)
    requires |q| >= 1 && Plain(q)
    requires forall k :: 0 <= k < |q| ==> q[k] != "" && '/' !in q[k] && '\\' !in q[k]
    requires JoinPath(q) in t.files
    ensures NewFilename(t, "/" + JoinPath(["."] + q)) == "/" + JoinPath(["."] + q)
  {
    var parts := ["."] + q;
    forall k | 0 <= k < |parts| ensures parts[k] != "" && '/' !in parts[k] && '\\' !in parts[k] {
      if k > 0 {
        assert parts[k] == q[k - 1];
      }
    }
    AbsoluteSegments(parts);
    DotSegmentResolved(t, q);
    assert parts[0..] == parts;
  }

  /** In a path with no `//`, no leading and no trailing `/`, every piece of
      the split is non-empty. */
  lemma {:induction false} SplitPieceNonEmpty(s: string, k: nat)
    requires |s| >= 1 && s[0] != '/' && s[|s| - 1] != '/'
    requires NoDoubleSlash(s)
    requires k < |Split(s, '/')|
    ensures Split(s, '/')[k] != ""
    decreases |s|
  {
    var i := IndexOf(s, '/');
    var parts := Split(s, '/');
    if i == |s| {
      assert parts == [s];
    } else {
      var t := s[i + 1..];
      SplitStep(s, '/');
      if k == 0 {
        assert s[i] == '/' && i != 0;
        assert parts[0] == s[..i];
      } else {
        assert i + 1 < |s|;
        assert t[0] == s[i + 1] && t[|t| - 1] == s[|s| - 1];
        NoDoubleSlashSuffix(s, i + 1);
        ConsIndex(s[..i], Split(t, '/'), k);
        SplitPieceNonEmpty(t, k - 1);
      }
    }
  }

  lemma NoDoubleSlashSuffix(s: string, i: nat)
    requires i <= |s| && NoDoubleSlash(s)
    ensures NoDoubleSlash(s[i..])
  {
    var t := s[i..];
    forall j, m | 0 <= j && m == j + 1 && m < |t| ensures !(t[j] == '/' && t[m] == '/') {
      assert t[j] == s[i + j] && t[m] == s[i + m];
    }
  }

  /** An image moved up one directory: the path loses its first segment. */
  lemma MovedUpOne(t: WorkTree, q: seq<string>)
    requires |q| >= 2
    requires forall k :: 0 <= k < |q| ==> q[k] != "" && '/' !in q[k] && '\\' !in q[k]
    requires !IsFileAt(t, q) && IsFileAt(t, q[1..])
    ensures NewFilename(t, "/" + JoinPath(q)) == "/" + JoinPath(q[1..])
  {
    AbsoluteSegments(q);
    assert q[0..] == q;
    assert ExistingSuffix(t, q, 1) == 1;
  }

  lemma ScreenshotJoin()
    ensures var q := ["GodFather", "scrnshot.png"];
      && "/" + JoinPath(q) == "/GodFather/scrnshot.png" && "/" + JoinPath(q[1..]) == "/scrnshot.png"
  {
    var q := ["GodFather", "scrnshot.png"];
    assert q[1..] == ["scrnshot.png"];
    JoinTwo("/", "GodFather", "scrnshot.png");
    Assoc("/", "GodFather", "/");
    Assoc("/", "GodFather/", "scrnshot.png");
  }

  lemma ScreenshotSegments()
    ensures var q := ["GodFather", "scrnshot.png"];
      forall k :: 0 <= k < |q| ==> q[k] != "" && '/' !in q[k] && '\\' !in q[k]
  {
    var q := ["GodFather", "scrnshot.png"];
    assert forall c :: c in q[0] ==> c != '/' && c != '\\';
    assert forall c :: c in q[1] ==> c != '/' && c != '\\';
  }

  lemma ScreenshotLayout()
    ensures var q := ["GodFather", "scrnshot.png"];
      && JoinPath(q) == "GodFather/scrnshot.png" && JoinPath(q[1..]) == "scrnshot.png"
      && "/" + JoinPath(q) == "/GodFather/scrnshot.png" && "/" + JoinPath(q[1..]) == "/scrnshot.png"
      && forall k :: 0 <= k < |q| ==> q[k] != "" && '/' !in q[k] && '\\' !in q[k]
  {
    var q := ["GodFather", "scrnshot.png"];
    assert q[1..] == ["scrnshot.png"];
    JoinTwo("/", "GodFather", "scrnshot.png");
    ScreenshotJoin();
    ScreenshotSegments();
  }

  /** The image of the README test: `/GodFather/scrnshot.png`, with only
      `scrnshot.png` at the root of the working copy, becomes
      `/scrnshot.png`. */
  lemma ScreenshotMovedUp(t: WorkTree)
    requires "scrnshot.png" in t.files && "GodFather/scrnshot.png" !in t.files
    ensures NewFilename(t, "/GodFather/scrnshot.png") == "/scrnshot.png"
  {
    var q := ["GodFather", "scrnshot.png"];
    ScreenshotLayout();
    assert Plain(q) && Plain(q[1..]);
    PlainIsFileAt(t, q);
    PlainIsFileAt(t, q[1..]);
    MovedUpOne(t, q);
  }

  // ---------------------------------------------------------------------
  // image_convert and the rule

  /** `image_convert` of `readme.py`: the matched text with the file name
      group replaced by the repaired path. */
  function ImageConvert(t: WorkTree, s: string, m: Match): string
  {
    if m.start <= m.groupStart <= m.groupEnd <= m.end <= |s| then
      s[m.start..m.groupStart] + NewFilename(t, s[m.groupStart..m.groupEnd]) + s[m.groupEnd..m.end]
    else ""
  }

  /** `ReadmeImageFix.convert`. */
  function ConvertImages(s: WorkTree, contents: string): string
  {
    Sub(MarkdownImage, contents, m => ImageConvert(s, contents, m), 0)
  }

  /** Only the file name changes: a match whose path the repair keeps is
      given back unchanged. */
  lemma ImageConvertKeeps(t: WorkTree, s: string, j: nat)
    requires j <= |s|
    requires var r := MatchAt(MarkdownImage, s, j);
      r.Some? ==> NewFilename(t, s[r.value.groupStart..r.value.groupEnd]) == s[r.value.groupStart..r.value.groupEnd]
    ensures KeepsMatchAt(MarkdownImage, s, m => ImageConvert(t, s, m), j)
  {
    var r := MatchAt(MarkdownImage, s, j);
    if r.Some? {
      var m := r.value;
      SliceSplit(s, m.start, m.groupStart, m.end);
      SliceSplit(s, m.groupStart, m.groupEnd, m.end);
    }
  }

  /** A README whose every image path is kept by the repair (it names a
      file, or no trailing part of it does) is left exactly as it was. */
  lemma ConvertKeepsResolved(s: WorkTree, contents: string)
    requires forall j :: 0 <= j <= |contents| ==>
      var r := MatchAt(MarkdownImage, contents, j);
      r.Some? ==> NewFilename(s, contents[r.value.groupStart..r.value.groupEnd]) == contents[r.value.groupStart..r.value.groupEnd]
    ensures ConvertImages(s, contents) == contents
  {
    var repl := m => ImageConvert(s, contents, m);
    forall j | 0 <= j <= |contents| ensures KeepsMatchAt(MarkdownImage, contents, repl, j) {
      ImageConvertKeeps(s, contents, j);
    }
    SubIdentity(MarkdownImage, contents, repl, 0);
  }

  /** `ReadmeImageFix`: the image repair applied to `README.md`. */
  function ReadmeImageFix(): (r: SingleFileFix)
    ensures r.filename == "README.md" && r.msg == "Fixed broken images in README"
    ensures r.convert == ConvertImages
  {
    SingleFileFix("README.md", "Fixed broken images in README", ConvertImages)
  }

  /** The rule commits only when some image path is repaired to a
      different one. */
  lemma ReadmeImageOnlyRepairs(s: WorkTree)
    requires Clean(s) && WellFormed(s)
    requires IsFile(s, "README.md")
    requires var c := s.files["README.md"];
      forall j :: 0 <= j <= |c| ==>
        var r := MatchAt(MarkdownImage, c, j);
        r.Some? ==> NewFilename(s, c[r.value.groupStart..r.value.groupEnd]) == c[r.value.groupStart..r.value.groupEnd]
    ensures ReadmeImageFix().Step(s) == Effect(Done([]), s)
  {
    ConvertKeepsResolved(s, s.files["README.md"]);
  }

  // ---------------------------------------------------------------------
  // One image in a README

  /** A Markdown image in the form the pattern looks for:
      `![alt](path?raw=true "title")`. */
  function ImageMarkup(alt: string, path: string, title: string): string
  {
    ImageOpening(alt) + path + ImageClosing(title)
  }

  /** The markup before an image's path: `![alt](`. */
  function ImageOpening(alt: string): string
  {
    "![" + alt + "]("
  }

  /** The markup after an image's path: `?raw=true "title")`. */
  function ImageClosing(title: string): string
  {
    RawSuffix + title + "\")"
  }

  /** A scan that stops at the first `stop` stops at `i + n` when the `n`
      characters from `i` are not `stop` and the next one is. */
  lemma SkipUntilAt(s: string, i: nat, stop: char, n: nat)
    requires i + n < |s| && s[i + n] == stop
    requires forall k :: i <= k < i + n ==> s[k] != stop
    ensures SkipUntil(s, i, stop) == i + n
  {
  }

  lemma SkipPathCharsAt(s: string, i: nat, n: nat)
    requires i + n < |s| && !IsPathChar(s[i + n])
    requires forall k :: i <= k < i + n ==> IsPathChar(s[k])
    ensures SkipPathChars(s, i) == i + n
  {
  }

  /** A README position without `!` starts no image. */
  lemma NoBangNoImage(s: string, k: nat)
    requires k < |s| && s[k] != '!'
    ensures MatchAt(MarkdownImage, s, k).None?
  {
    if k + 2 <= |s| {
      assert s[k..k + 2][0] == s[k];
    }
  }

  /** The substitution copies a stretch of the README that has no `!`. */
  lemma {:induction false} SubCopies(s: string, repl: Match -> string, i: nat, j: nat)
    requires i <= j <= |s|
    requires forall k :: i <= k < j ==> s[k] != '!'
    ensures Sub(MarkdownImage, s, repl, i) == s[i..j] + Sub(MarkdownImage, s, repl, j)
    decreases j - i
  {
    if i == j {
      assert s[i..j] == [];
    } else {
      NoBangNoImage(s, i);
      SubCopies(s, repl, i + 1, j);
      SliceSplit(s, i, i + 1, j);
      assert s[i..i + 1] == [s[i]];
      Assoc([s[i]], s[i + 1..j], Sub(MarkdownImage, s, repl, j));
    }
  }

  /** The fixed characters of an image's markup and its length. */
  lemma MarkupFixed(alt: string, path: string, title: string)
    ensures var m := ImageMarkup(alt, path, title);
      var a, p, r, tl := |alt|, |path|, |RawSuffix|, |title|;
      && |m| == a + p + r + tl + 6
      && m[0] == '!' && m[1] == '[' && m[2 + a] == ']' && m[3 + a] == '('
      && m[4 + a + p + r + tl] == '"' && m[5 + a + p + r + tl] == ')'
  {
  }

  lemma MarkupAltAt(alt: string, path: string, title: string, k: nat)
    requires k < |alt|
    ensures ImageMarkup(alt, path, title)[2 + k] == alt[k]
  {
  }

  lemma MarkupPathAt(alt: string, path: string, title: string, k: nat)
    requires k < |path|
    ensures ImageMarkup(alt, path, title)[4 + |alt| + k] == path[k]
  {
  }

  lemma MarkupRawAt(alt: string, path: string, title: string, k: nat)
    requires k < |RawSuffix|
    ensures ImageMarkup(alt, path, title)[4 + |alt| + |path| + k] == RawSuffix[k]
  {
  }

  lemma MarkupTitleAt(alt: string, path: string, title: string, k: nat)
    requires k < |title|
    ensures ImageMarkup(alt, path, title)[4 + |alt| + |path| + |RawSuffix| + k] == title[k]
  {
  }

  /** A character of the middle piece, seen from the whole text. */
  lemma MiddleAt(before: string, m: string, after: string, k: nat)
    requires k < |m|
    ensures |before + m + after| == |before| + |m| + |after|
    ensures (before + m + after)[|before| + k] == m[k]
  {
  }

  /** A literal is at `j` when its characters are. */
  lemma LiteralFromChars(s: string, j: nat, lit: string)
    requires j + |lit| <= |s|
    requires forall k :: 0 <= k < |lit| ==> s[j + k] == lit[k]
    ensures LiteralAt(s, j, lit)
  {
    var w := s[j..j + |lit|];
    forall k | 0 <= k < |lit| ensures w[k] == lit[k] {
      assert w[k] == s[j + k];
    }
  }

  /** What the pattern needs to see at `i` to match with the given group and
      end: the literals in their places, and scans that stop where the
      pieces end. */
  predicate ImageScans(s: string, i: nat, a: nat, p: nat, tl: nat)
  {
    ImageSteps(s, i, i + 2 + a, i + 2 + a + 2 + p, i + 2 + a + 2 + p + |RawSuffix| + tl)
  }

  lemma MatchFromScans(s: string, i: nat, a: nat, p: nat, tl: nat)
    requires ImageScans(s, i, a, p, tl)
    ensures MatchAt(MarkdownImage, s, i) == Some(Match(i, i + a + 4, i + a + 4 + p, i + a + 4 + p + |RawSuffix| + tl + 2))
  {
    MarkdownImageFound(s, i, i + 2 + a, i + 2 + a + 2 + p, i + 2 + a + 2 + p + |RawSuffix| + tl);
  }

  // The seven facts `MatchFromScans` asks for, each about a README
  // `before + ImageMarkup(alt, path, title) + after` at `|before|`.

  lemma ImageOpens(before: string, alt: string, path: string, title: string, after: string)
    ensures LiteralAt(before + ImageMarkup(alt, path, title) + after, |before|, "![")
  {
    var m := ImageMarkup(alt, path, title);
    MarkupFixed(alt, path, title);
    MiddleAt(before, m, after, 0);
    MiddleAt(before, m, after, 1);
    LiteralFromChars(before + m + after, |before|, "![");
  }

  lemma ImageAltScan(before: string, alt: string, path: string, title: string, after: string)
    requires ']' !in alt
    ensures var s := before + ImageMarkup(alt, path, title) + after;
      |before| + 2 <= |s| && SkipUntil(s, |before| + 2, ']') == |before| + 2 + |alt|
  {
    var m := ImageMarkup(alt, path, title);
    var s := before + m + after;
    var i, a := |before|, |alt|;
    MarkupFixed(alt, path, title);
    forall k | i + 2 <= k < i + 2 + a ensures s[k] != ']' {
      MiddleAt(before, m, after, k - i);
      MarkupAltAt(alt, path, title, k - i - 2);
    }
    MiddleAt(before, m, after, 2 + a);
    SkipUntilAt(s, i + 2, ']', a);
  }

  lemma ImageAltCloses(before: string, alt: string, path: string, title: string, after: string)
    requires |path| >= 1 && path[0] == '/'
    ensures LiteralAt(before + ImageMarkup(alt, path, title) + after, |before| + 2 + |alt|, "](/")
  {
    var m := ImageMarkup(alt, path, title);
    var a := |alt|;
    MarkupFixed(alt, path, title);
    MarkupPathAt(alt, path, title, 0);
    MiddleAt(before, m, after, 2 + a);
    MiddleAt(before, m, after, 3 + a);
    MiddleAt(before, m, after, 4 + a);
    LiteralFromChars(before + m + after, |before| + 2 + a, "](/");
  }

  lemma ImagePathScan(before: string, alt: string, path: string, title: string, after: string)
    requires |path| >= 2 && forall k :: 1 <= k < |path| ==> IsPathChar(path[k])
    ensures var s := before + ImageMarkup(alt, path, title) + after;
      |before| + |alt| + 5 <= |s| && SkipPathChars(s, |before| + |alt| + 5) == |before| + |alt| + 4 + |path|
  {
    var m := ImageMarkup(alt, path, title);
    var s := before + m + after;
    var i, a, p := |before|, |alt|, |path|;
    MarkupFixed(alt, path, title);
    forall k | i + a + 5 <= k < i + a + 5 + (p - 1) ensures IsPathChar(s[k]) {
      MiddleAt(before, m, after, k - i);
      MarkupPathAt(alt, path, title, k - i - 4 - a);
    }
    MiddleAt(before, m, after, 4 + a + p);
    MarkupRawAt(alt, path, title, 0);
    SkipPathCharsAt(s, i + a + 5, p - 1);
  }

  lemma ImageRawSuffix(before: string, alt: string, path: string, title: string, after: string)
    ensures LiteralAt(before + ImageMarkup(alt, path, title) + after, |before| + |alt| + 4 + |path|, RawSuffix)
  {
    var m := ImageMarkup(alt, path, title);
    var s := before + m + after;
    var j := |before| + |alt| + 4 + |path|;
    MarkupFixed(alt, path, title);
    forall k | 0 <= k < |RawSuffix| ensures s[j + k] == RawSuffix[k] {
      MiddleAt(before, m, after, 4 + |alt| + |path| + k);
      MarkupRawAt(alt, path, title, k);
    }
    LiteralFromChars(s, j, RawSuffix);
  }

  lemma ImageTitleScan(before: string, alt: string, path: string, title: string, after: string)
    requires '"' !in title
    ensures var s := before + ImageMarkup(alt, path, title) + after;
      var j := |before| + |alt| + 4 + |path| + |RawSuffix|;
      j <= |s| && SkipUntil(s, j, '"') == j + |title|
  {
    var m := ImageMarkup(alt, path, title);
    var s := before + m + after;
    var i, o := |before|, 4 + |alt| + |path| + |RawSuffix|;
    MarkupFixed(alt, path, title);
    forall k | i + o <= k < i + o + |title| ensures s[k] != '"' {
      MiddleAt(before, m, after, k - i);
      MarkupTitleAt(alt, path, title, k - i - o);
    }
    MiddleAt(before, m, after, o + |title|);
    SkipUntilAt(s, i + o, '"', |title|);
  }

  lemma ImageCloses(before: string, alt: string, path: string, title: string, after: string)
    ensures LiteralAt(before + ImageMarkup(alt, path, title) + after,
      |before| + |alt| + 4 + |path| + |RawSuffix| + |title|, "\")")
  {
    var m := ImageMarkup(alt, path, title);
    var o := 4 + |alt| + |path| + |RawSuffix| + |title|;
    MarkupFixed(alt, path, title);
    MiddleAt(before, m, after, o);
    MiddleAt(before, m, after, o + 1);
    LiteralFromChars(before + m + after, |before| + o, "\")");
  }

  /** The README holding one image shows the pattern all it needs at the
      image's start. */
  lemma ImageScansHold(before: string, alt: string, path: string, title: string, after: string)
    requires ']' !in alt && '"' !in title
    requires |path| >= 2 && path[0] == '/' && forall k :: 1 <= k < |path| ==> IsPathChar(path[k])
    ensures ImageScans(before + ImageMarkup(alt, path, title) + after, |before|, |alt|, |path|, |title|)
  {
    ImageOpens(before, alt, path, title, after);
    ImageAltScan(before, alt, path, title, after);
    ImageAltCloses(before, alt, path, title, after);
    ImagePathScan(before, alt, path, title, after);
    ImageRawSuffix(before, alt, path, title, after);
    ImageTitleScan(before, alt, path, title, after);
    ImageCloses(before, alt, path, title, after);
  }

  /** A README whose only `!` characters lie inside one match is rewritten
      at that match alone. */
  lemma SubOneMatch(s: string, repl: Match -> string, m: Match)
    requires m.start < m.end <= |s|
    requires MatchAt(MarkdownImage, s, m.start) == Some(m)
    requires forall k :: 0 <= k < m.start ==> s[k] != '!'
    requires forall k :: m.end <= k < |s| ==> s[k] != '!'
    ensures Sub(MarkdownImage, s, repl, 0) == s[..m.start] + repl(m) + s[m.end..]
  {
    SubCopies(s, repl, 0, m.start);
    SubCopies(s, repl, m.end, |s|);
    SubOnlyMatch(MarkdownImage, s, repl, m);
  }

  /** The pieces of a README holding one image, as slices. */
  lemma ImageSlices(before: string, alt: string, path: string, title: string, after: string)
    ensures var s := before + ImageMarkup(alt, path, title) + after;
      var i := |before|;
      var gs := i + |alt| + 4;
      var ge := gs + |path|;
      var e := ge + |RawSuffix| + |title| + 2;
      && e <= |s|
      && s[..i] == before && s[e..] == after
      && s[i..gs] == ImageOpening(alt)
      && s[gs..ge] == path
      && s[ge..e] == ImageClosing(title)
  {
    var open, close := ImageOpening(alt), ImageClosing(title);
    var img := ImageMarkup(alt, path, title);
    var s := before + img + after;
    var i := |before|;
    assert |open| == |alt| + 4 && |close| == |RawSuffix| + |title| + 2;
    assert s[..i] == before;
    assert s[i..i + |img|] == img;
    assert s[i + |img|..] == after;
    assert img[..|open|] == open;
    assert img[|open|..|open| + |path|] == path;
    assert img[|open| + |path|..] == close;
  }

  /** The conversion of a README whose only `!` characters lie inside one
      image match rewrites that image alone. */
  lemma ConvertAtOneMatch(t: WorkTree, s: string, m: Match)
    requires m.start < m.end <= |s|
    requires MatchAt(MarkdownImage, s, m.start) == Some(m)
    requires forall k :: 0 <= k < m.start ==> s[k] != '!'
    requires forall k :: m.end <= k < |s| ==> s[k] != '!'
    ensures ConvertImages(t, s) == s[..m.start] + ImageConvert(t, s, m) + s[m.end..]
  {
    SubOneMatch(s, mm => ImageConvert(t, s, mm), m);
  }

  /** No `!` before `i` or from `e` on. */
  predicate NoBangOutsideOf(s: string, i: nat, e: nat)
  {
    && (forall k :: 0 <= k < i && k < |s| ==> s[k] != '!')
    && (forall k :: e <= k < |s| ==> s[k] != '!')
  }

  /** Text without `!` around some markup puts no `!` outside it. */
  lemma NoBangOutside(before: string, img: string, after: string)
    requires '!' !in before && '!' !in after
    ensures NoBangOutsideOf(before + img + after, |before|, |before| + |img|)
  {
    var s := before + img + after;
    forall k | |before| + |img| <= k < |s| ensures s[k] != '!' {
      assert s[k] == after[k - |before| - |img|];
    }
  }

  /** A README showing the pattern one image and no other `!` is rewritten
      at that image alone. */
  lemma ConvertMatched(t: WorkTree, s: string, i: nat, a: nat, p: nat, tl: nat)
    requires ImageScans(s, i, a, p, tl)
    requires NoBangOutsideOf(s, i, i + a + 4 + p + |RawSuffix| + tl + 2)
    ensures ConvertImages(t, s)
      == s[..i] + ImageConvert(t, s, Match(i, i + a + 4, i + a + 4 + p, i + a + 4 + p + |RawSuffix| + tl + 2))
         + s[i + a + 4 + p + |RawSuffix| + tl + 2..]
  {
    MatchFromScans(s, i, a, p, tl);
    ConvertAtOneMatch(t, s, Match(i, i + a + 4, i + a + 4 + p, i + a + 4 + p + |RawSuffix| + tl + 2));
  }

  /** Spelling out the rewritten README piece by piece. */
  lemma RewrittenPieces(t: WorkTree, s: string, i: nat, a: nat, p: nat, tl: nat, r: string,
                        before: string, open: string, path: string, close: string, after: string)
    requires i + a + 4 + p + |RawSuffix| + tl + 2 <= |s|
    requires r == s[..i] + ImageConvert(t, s, Match(i, i + a + 4, i + a + 4 + p, i + a + 4 + p + |RawSuffix| + tl + 2))
      + s[i + a + 4 + p + |RawSuffix| + tl + 2..]
    requires s[..i] == before && s[i..i + a + 4] == open && s[i + a + 4..i + a + 4 + p] == path
    requires s[i + a + 4 + p..i + a + 4 + p + |RawSuffix| + tl + 2] == close
    requires s[i + a + 4 + p + |RawSuffix| + tl + 2..] == after
    ensures r == before + (open + NewFilename(t, path) + close) + after
  {
    ImageConvertPieces(t, s, Match(i, i + a + 4, i + a + 4 + p, i + a + 4 + p + |RawSuffix| + tl + 2), open, path, close);
  }

  /** ... and that image's path alone. */
  lemma ConvertScanned(t: WorkTree, s: string, i: nat, a: nat, p: nat, tl: nat,
                       before: string, open: string, path: string, close: string, after: string)
    requires ImageScans(s, i, a, p, tl)
    requires NoBangOutsideOf(s, i, i + a + 4 + p + |RawSuffix| + tl + 2)
    requires s[..i] == before && s[i..i + a + 4] == open && s[i + a + 4..i + a + 4 + p] == path
    requires s[i + a + 4 + p..i + a + 4 + p + |RawSuffix| + tl + 2] == close
    requires s[i + a + 4 + p + |RawSuffix| + tl + 2..] == after
    ensures ConvertImages(t, s) == before + (open + NewFilename(t, path) + close) + after
  {
    ConvertMatched(t, s, i, a, p, tl);
    RewrittenPieces(t, s, i, a, p, tl, ConvertImages(t, s), before, open, path, close, after);
  }

  /** The replacement for a match keeps its text around the repaired path. */
  lemma ImageConvertPieces(t: WorkTree, s: string, m: Match, open: string, path: string, close: string)
    requires m.start <= m.groupStart <= m.groupEnd <= m.end <= |s|
    requires s[m.start..m.groupStart] == open && s[m.groupStart..m.groupEnd] == path
    requires s[m.groupEnd..m.end] == close
    ensures ImageConvert(t, s, m) == open + NewFilename(t, path) + close
  {
  }

  /** A README with one image and no other `!`: the repair replaces the
      image's path by its repaired form and keeps every other character. */
  lemma ConvertOneImage(t: WorkTree, before: string, alt: string, path: string, title: string, after: string)
    requires '!' !in before && '!' !in after
    requires ']' !in alt && '"' !in title
    requires |path| >= 2 && path[0] == '/' && forall k :: 1 <= k < |path| ==> IsPathChar(path[k])
    ensures ConvertImages(t, before + ImageMarkup(alt, path, title) + after)
      == before + ImageMarkup(alt, NewFilename(t, path), title) + after
  {
    var img := ImageMarkup(alt, path, title);
    MarkupFixed(alt, path, title);
    ImageScansHold(before, alt, path, title, after);
    NoBangOutside(before, img, after);
    ImageSlices(before, alt, path, title, after);
    ConvertScanned(t, before + img + after, |before|, |alt|, |path|, |title|,
      before, ImageOpening(alt), path, ImageClosing(title), after);
  }

  /** The README of the unit test for `readme.py`: its image
      `/GodFather/scrnshot.png`, with only `scrnshot.png` at the root, is
      pointed at `/scrnshot.png`, and the text around it is kept. */
  lemma ScreenshotReadme(t: WorkTree, before: string, after: string)
    requires '!' !in before && '!' !in after
    requires "scrnshot.png" in t.files && "GodFather/scrnshot.png" !in t.files
    ensures ConvertImages(t, before + ImageMarkup("screenshot", "/GodFather/scrnshot.png", "Screenshot") + after)
      == before + ImageMarkup("screenshot", "/scrnshot.png", "Screenshot") + after
  {
    var path := "/GodFather/scrnshot.png";
    assert ']' !in "screenshot";
    assert '"' !in "Screenshot";
    assert forall k :: 1 <= k < |path| ==> IsPathChar(path[k]);
    ConvertOneImage(t, before, "screenshot", path, "Screenshot", after);
    ScreenshotMovedUp(t);
  }
  /** The unit test's README: the text around its image has no `!`, so the
      image is the only thing the conversion changes. */
  lemma ScreenshotTestReadme(t: WorkTree)
    requires "scrnshot.png" in t.files && "GodFather/scrnshot.png" !in t.files
    ensures var before := "\n    # GodFather\n" + "A Delphi app to rename files" + " (legacy project)\n\n";
      var after := "\n    ";
      ConvertImages(t, before + ImageMarkup("screenshot", "/GodFather/scrnshot.png", "Screenshot") + after)
        == before + ImageMarkup("screenshot", "/scrnshot.png", "Screenshot") + after
  {
    var b1, b2, b3 := "\n    # GodFather\n", "A Delphi app to rename files", " (legacy project)\n\n";
    assert '!' !in b1 && '!' !in b2 && '!' !in b3;
    ScreenshotReadme(t, b1 + b2 + b3, "\n    ");
  }
}
