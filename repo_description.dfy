/**
  The rule that copies a description from the README into the GitHub
  repository settings.  It never touches the working copy and never
  reports a change; its only effect is an API request.
 */
module RepoDescription {
  import opened Wrappers
  import opened Text
  import opened Git
  import opened GitHub
  import opened Regex
  import MustHaveReadme

  const ReadmeFile: Path := "README.md"

  /** One line of the filtering: stripped, and kept when it begins with `>`
      or an ASCII letter. */
  function KeptLine(line: string): (r: seq<string>)
    ensures |r| <= 1
  {
    var l := Strip(line);
    if DescriptionLine(l) then [l] else []
  }

  /** The filtering of `get_readme_description`: every line stripped, and
      only those kept that begin with `>` or an ASCII letter. */
  function DescriptionLines(lines: seq<string>): (r: seq<string>)
    ensures |r| <= |lines|
  {
    if lines == [] then [] else KeptLine(lines[0]) + DescriptionLines(lines[1..])
  }

  /** The filter keeps the order of the lines: it distributes over
      concatenation. */
  lemma {:induction false} DescriptionLinesAppend(a: seq<string>, b: seq<string>)
    ensures DescriptionLines(a + b) == DescriptionLines(a) + DescriptionLines(b)
    decreases |a|
  {
    if a != [] {
      assert (a + b)[1..] == a[1..] + b;
      DescriptionLinesAppend(a[1..], b);
    } else {
      assert a + b == b;
    }
  }

  /** A text is kept exactly when it is the stripped form of some line and
      begins like a description. */
  lemma DescriptionLinesMember(lines: seq<string>, x: string)
    ensures x in DescriptionLines(lines) <==>
      DescriptionLine(x) && exists k :: 0 <= k < |lines| && Strip(lines[k]) == x
  {
    if x in DescriptionLines(lines) {
      KeptComesFrom(lines, x);
    }
    if DescriptionLine(x) && exists k :: 0 <= k < |lines| && Strip(lines[k]) == x {
      var k :| 0 <= k < |lines| && Strip(lines[k]) == x;
      SourceIsKept(lines, x, k);
    }
  }

  /** Every kept line is the stripped form of some input line. */
  lemma {:induction false} KeptComesFrom(lines: seq<string>, x: string)
    requires x in DescriptionLines(lines)
    ensures DescriptionLine(x) && exists k :: 0 <= k < |lines| && Strip(lines[k]) == x
    decreases |lines|
  {
    var rest := lines[1..];
    assert DescriptionLines(lines) == KeptLine(lines[0]) + DescriptionLines(rest);
    if x in KeptLine(lines[0]) {
      KeptLineMember(lines[0], x);
    } else {
      KeptComesFrom(rest, x);
      var k :| 0 <= k < |rest| && Strip(rest[k]) == x;
      assert rest[k] == lines[k + 1];
    }
  }

  /** Every input line whose stripped form is a description line is kept. */
  lemma {:induction false} SourceIsKept(lines: seq<string>, x: string, k: nat)
    requires k < |lines| && Strip(lines[k]) == x && DescriptionLine(x)
    ensures x in DescriptionLines(lines)
    decreases k
  {
    var rest := lines[1..];
    assert DescriptionLines(lines) == KeptLine(lines[0]) + DescriptionLines(rest);
    if k > 0 {
      assert rest[k - 1] == lines[k];
      SourceIsKept(rest, x, k - 1);
    } else {
      KeptLineMember(lines[0], x);
    }
  }

  lemma KeptLineMember(line: string, x: string)
    ensures x in KeptLine(line) <==> DescriptionLine(x) && Strip(line) == x
  {
  }

  /** `get_description_from_lines`: nothing for no lines; otherwise the
      first line, with a leading `>` and the whitespace after it removed. */
  function DescriptionFromLines(lines: seq<string>): (r: Option<string>)
    ensures r.None? <==> lines == []
    ensures r.Some? && Stripped(lines[0]) ==> Stripped(r.value)
  {
    if lines == [] then None
    else
      var line := lines[0];
      if StartsWith(line, ">") then Some(Strip(line[1..])) else Some(line)
  }

  /** A block-quoted first line gives the quoted text without the marker ... */
  lemma QuotedDescription(x: string, rest: seq<string>)
    requires x != [] && Stripped(x)
    ensures DescriptionFromLines([">" + x] + rest) == Some(x)
  {
    assert StartsWith(">" + x, ">");
    assert (">" + x)[1..] == x;
    StripOfStripped(x);
  }

  /** ... and without the whitespace after the marker. */
  lemma QuotedSpacedDescription(x: string, rest: seq<string>)
    requires x != [] && Stripped(x)
    ensures DescriptionFromLines([">" + " " + x] + rest) == Some(x)
  {
    assert StartsWith(">" + " " + x, ">");
    assert (">" + " " + x)[1..] == " " + x;
    StripLeadingSpace(x);
  }

  /** A first line that does not begin with `>` is the description as it is. */
  lemma PlainDescription(x: string, rest: seq<string>)
    requires x != [] && x[0] != '>'
    ensures DescriptionFromLines([x] + rest) == Some(x)
  {
  }

  /** `get_readme_description`: the description read from `README.md`, or
      nothing when there is no README or no line of it qualifies. */
  function ReadmeDescription(s: WorkTree): (r: Option<string>)
    ensures !IsFile(s, ReadmeFile) ==> r == None
    ensures IsFile(s, ReadmeFile) ==>
      (r == None <==> DescriptionLines(ReadLines(s.files[ReadmeFile])) == [])
  {
    if ReadmeFile !in s.files then None
    else DescriptionFromLines(DescriptionLines(ReadLines(s.files[ReadmeFile])))
  }

  /** A line read from a file holds `\n` at most at its end; stripping it
      leaves no `\n` at all. */
  lemma StripDropsNewline(l: string)
    requires forall j :: 0 <= j < |l| - 1 ==> l[j] != '\n'
    ensures '\n' !in Strip(l)
  {
    var left := LStrip(l);
    var r := Strip(l);
    var a := |l| - |left|;
    forall i | 0 <= i < |r| ensures r[i] != '\n' {
      assert r[i] == left[i] == l[a + i];
      if a + i == |l| - 1 {
        assert i == |r| - 1;
        assert IsSpace('\n');
      }
    }
  }

  /** The first kept line is a stripped line of the file without `\n`. */
  lemma FirstKeptLine(lines: seq<string>)
    requires forall k, j :: 0 <= k < |lines| && 0 <= j < |lines[k]| - 1 ==> lines[k][j] != '\n'
    requires DescriptionLines(lines) != []
    ensures Stripped(DescriptionLines(lines)[0]) && '\n' !in DescriptionLines(lines)[0]
  {
    var first := DescriptionLines(lines)[0];
    DescriptionLinesMember(lines, first);
    var k :| 0 <= k < |lines| && Strip(lines[k]) == first;
    StripDropsNewline(lines[k]);
  }

  /** The description found in a README is one stripped line. */
  lemma ReadmeDescriptionOneLine(s: WorkTree)
    requires ReadmeDescription(s).Some?
    ensures Stripped(ReadmeDescription(s).value)
    ensures '\n' !in ReadmeDescription(s).value
  {
    var lines := ReadLines(s.files[ReadmeFile]);
    var kept := DescriptionLines(lines);
    FirstKeptLine(lines);
    var first := kept[0];
    if StartsWith(first, ">") {
      assert '\n' !in first[1..];
      StripKeepsOut(first[1..], '\n');
    }
  }

  // ---------------------------------------------------------------------
  // RepoDescriptionFix.run

  /** The README description differs from the repository's and is not empty. */
  predicate ShouldUpdate(repo: RepoInfo, readme: Option<string>)
  {
    readme.Some? && readme.value != "" && readme != repo.description
  }

  /** The requests `run` sends for a README description. */
  function DescriptionCalls(readWrite: bool, repo: RepoInfo, readme: Option<string>): seq<ApiCall>
  {
    if ShouldUpdate(repo, readme) then Sent(readWrite, UpdateDescription(repo.fullName, readme.value)) else []
  }

  /** `RepoDescriptionFix.run`: reads the README, updates the description on
      GitHub when it has to, and reports no change. */
  method Run(github: GitHubClient, g: GitWorkingDir, repo: RepoInfo) returns (changes: seq<string>)
    modifies github
    ensures changes == []
    ensures github.calls == old(github.calls) + DescriptionCalls(github.readWrite, repo, ReadmeDescription(g.State()))
  {
    var contents := g.ReadFile(ReadmeFile);
    if contents.None? {
      return [];
    }
    var readme := DescriptionFromLines(DescriptionLines(ReadLines(contents.value)));
    if readme.None? || readme.value == "" {
      return [];
    }
    if readme != repo.description {
      github.SetDescription(repo.fullName, readme.value);
    }
    return [];
  }

  /** The rule sends at most one request: a read-write client sends it
      exactly when the README holds a non-empty description other than the
      repository's, and it names the repository and that description, which
      is a stripped single line. */
  lemma DescriptionCallsLaw(readWrite: bool, s: WorkTree, repo: RepoInfo)
    ensures var calls := DescriptionCalls(readWrite, repo, ReadmeDescription(s));
      && |calls| <= 1
      && (calls != [] <==> readWrite && ShouldUpdate(repo, ReadmeDescription(s)))
      && (calls != [] ==>
            calls[0].UpdateDescription? && calls[0].fullName == repo.fullName &&
            Some(calls[0].description) == ReadmeDescription(s) &&
            calls[0].description != "" && Stripped(calls[0].description) &&
            '\n' !in calls[0].description)
  {
    if ReadmeDescription(s).Some? {
      ReadmeDescriptionOneLine(s);
    }
  }

  /** Once the repository carries the README description, running the rule
      again sends nothing. */
  lemma DescriptionSettles(readWrite: bool, s: WorkTree, repo: RepoInfo)
    requires ShouldUpdate(repo, ReadmeDescription(s))
    ensures DescriptionCalls(readWrite, repo.(description := ReadmeDescription(s)), ReadmeDescription(s)) == []
  {
  }

  // ---------------------------------------------------------------------
  // Agreement with the README the readme rule creates

  lemma CreatedLines(name: string, d: string)
    requires '\n' !in name && '\n' !in d
    ensures ReadLines(MustHaveReadme.ReadmeText(name, Some(d))) ==
      (if d == "" then ["# " + name + "\n", "\n"] else ["# " + name + "\n", "\n", d + "\n"])
  {
    var title := "# " + name + "\n";
    var lines := if d == "" then [title, "\n"] else [title, "\n", d + "\n"];
    forall k, j | 0 <= k < |lines| && 0 <= j < |lines[k]| - 1 ensures lines[k][j] != '\n' {
      if k == 0 {
        assert j < 2 || lines[k][j] == name[j - 2];
      } else {
        assert lines[k][j] == d[j];
      }
    }
    assert Concat(lines) == MustHaveReadme.ReadmeText(name, Some(d)) by {
      assert Concat(lines[2..]) == (if d == "" then "" else d + "\n");
    }
    ReadLinesConcat(lines);
  }

  /** The title line of a created README is not a description line. */
  lemma TitleNotKept(name: string)
    ensures KeptLine("# " + name + "\n") == []
  {
    var l := "# " + name + "\n";
    assert !IsSpace(l[0]);
    assert LStrip(l) == l;
  }

  lemma BlankNotKept()
    ensures KeptLine("\n") == []
  {
    var nl := "\n";
    assert IsSpace(nl[0]);
    assert LStrip(nl) == LStrip(nl[1..]);
    assert |LStrip(nl[1..])| == 0;
  }

  lemma StripTrailingNewline(d: string)
    requires d != [] && Stripped(d)
    ensures Strip(d + "\n") == d
  {
    var l := d + "\n";
    assert l[0] == d[0] && !IsSpace(l[0]);
    assert LStrip(l) == l;
    assert l[|l| - 1] == '\n' && IsSpace('\n');
    assert l[..|l| - 1] == d;
    assert RStrip(l) == RStrip(d);
    RStripOfStripped(d);
  }

  lemma DescriptionKept(d: string)
    requires d != [] && Stripped(d) && IsAsciiLetter(d[0])
    ensures KeptLine(d + "\n") == [d]
  {
    StripTrailingNewline(d);
  }

  lemma DescriptionLinesCons(x: string, rest: seq<string>)
    ensures DescriptionLines([x] + rest) == KeptLine(x) + DescriptionLines(rest)
  {
    assert ([x] + rest)[1..] == rest;
  }

  lemma DescriptionLinesOfTwo(a: string, b: string)
    ensures DescriptionLines([a, b]) == KeptLine(a) + KeptLine(b)
  {
    assert [a, b] == [a] + [b];
    assert [b] == [b] + [];
    DescriptionLinesCons(a, [b]);
    DescriptionLinesCons(b, []);
  }

  lemma DescriptionLinesOfThree(a: string, b: string, c: string)
    ensures DescriptionLines([a, b, c]) == KeptLine(a) + (KeptLine(b) + KeptLine(c))
  {
    assert [a, b, c] == [a] + [b, c];
    DescriptionLinesCons(a, [b, c]);
    DescriptionLinesOfTwo(b, c);
  }

  /** A README created for a repository with a single-line, stripped
      description that begins with a letter yields that description back,
      so the description rule leaves such a repository alone; a README
      created without a description yields none. */
  lemma CreatedReadmeDescription(s: WorkTree, name: string, d: string)
    requires IsFile(s, ReadmeFile) && s.files[ReadmeFile] == MustHaveReadme.ReadmeText(name, Some(d))
    requires '\n' !in name && '\n' !in d && Stripped(d)
    requires d == "" || IsAsciiLetter(d[0])
    ensures ReadmeDescription(s) == (if d == "" then None else Some(d))
  {
    if d != "" {
      CreatedReadmeWith(s.files[ReadmeFile], name, d);
    } else {
      CreatedReadmeWithout(s.files[ReadmeFile], name);
    }
  }

  lemma CreatedReadmeWith(text: string, name: string, d: string)
    requires text == MustHaveReadme.ReadmeText(name, Some(d))
    requires '\n' !in name && '\n' !in d && d != "" && Stripped(d) && IsAsciiLetter(d[0])
    ensures DescriptionFromLines(DescriptionLines(ReadLines(text))) == Some(d)
  {
    CreatedLines(name, d);
    var lines := ReadLines(text);
    assert lines == ["# " + name + "\n", "\n", d + "\n"];
    CreatedWithDescription(name, d);
    assert DescriptionLines(lines) == [d] + [];
    assert d[0] != '>';
    PlainDescription(d, []);
  }

  lemma CreatedReadmeWithout(text: string, name: string)
    requires text == MustHaveReadme.ReadmeText(name, Some(""))
    requires '\n' !in name
    ensures DescriptionLines(ReadLines(text)) == []
  {
    CreatedLines(name, "");
    assert ReadLines(text) == ["# " + name + "\n", "\n"];
    CreatedWithoutDescription(name);
  }

  lemma CreatedWithDescription(name: string, d: string)
    requires d != "" && Stripped(d) && IsAsciiLetter(d[0])
    ensures DescriptionLines(["# " + name + "\n", "\n", d + "\n"]) == [d]
  {
    TitleNotKept(name);
    BlankNotKept();
    DescriptionLinesOfThree("# " + name + "\n", "\n", d + "\n");
    DescriptionKept(d);
  }

  lemma CreatedWithoutDescription(name: string)
    ensures DescriptionLines(["# " + name + "\n", "\n"]) == []
  {
    TitleNotKept(name);
    BlankNotKept();
    DescriptionLinesOfTwo("# " + name + "\n", "\n");
  }

  /** Hence a repository whose README was created from its own description
      gets no description update. */
  lemma CreatedReadmeSettles(readWrite: bool, s: WorkTree, repo: RepoInfo)
    requires repo.description.Some?
    requires IsFile(s, ReadmeFile) && s.files[ReadmeFile] == MustHaveReadme.ReadmeText(repo.name, repo.description)
    requires '\n' !in repo.name && '\n' !in repo.description.value && Stripped(repo.description.value)
    requires repo.description.value == "" || IsAsciiLetter(repo.description.value[0])
    ensures DescriptionCalls(readWrite, repo, ReadmeDescription(s)) == []
  {
    CreatedReadmeDescription(s, repo.name, repo.description.value);
  }
}
