/**
  The rule that adds a README to any repository that has none: a title
  line with the repository's name, a blank line, and the description when
  the repository has one.  Lines end in `\n` (`os.linesep` on POSIX).
 */
module MustHaveReadme {
  import opened Wrappers
  import opened Text
  import opened Git
  import opened GitHub
  import opened FixersBase
  import MissingFiles

  const ReadmeFile: Path := "README.md"
  const ReadmeMessage: string := "Adding README.md to repository"

  /** `README.md` sits at the root of the working copy. */
  lemma ReadmeAtRoot()
    ensures Parent(ReadmeFile) == ""
  {
    assert PlainSegment(ReadmeFile);
    ParentOfLast("", ReadmeFile);
  }

  /** What the rule writes for a repository's name and description. */
  function ReadmeText(name: string, description: Option<string>): (r: string)
    ensures StartsWith(r, "# " + name + "\n\n")
  {
    "# " + name + "\n" + "\n" + (if MissingFiles.HasDescription(description) then description.value + "\n" else "")
  }

  /** Read back line by line, the README is the title line, a blank line,
      and the description when there is one. */
  lemma ReadmeTextLines(name: string, description: Option<string>)
    requires NoBoundary(name)
    requires description.Some? ==> NoBoundary(description.value)
    ensures SplitLines(ReadmeText(name, description)) ==
      ["# " + name, ""] + (if MissingFiles.HasDescription(description) then [description.value] else [])
  {
    var title := "# " + name;
    assert NoBoundary("# ");
    NoBoundaryAppend("# ", name);
    if MissingFiles.HasDescription(description) {
      var d := description.value;
      var lines := [title, "", d];
      assert ReadmeText(name, description) == Join("\n", lines) + "\n" by {
        assert lines[1..] == ["", d] && lines[1..][1..] == [d];
        assert Join("\n", lines[1..][1..]) == d;
        assert Join("\n", lines[1..]) == "\n" + d;
      }
      SplitLinesJoinNewline(lines);
    } else {
      var lines := [title, ""];
      assert ReadmeText(name, description) == Join("\n", lines) + "\n" by {
        assert lines[1..] == [""];
      }
      SplitLinesJoinNewline(lines);
    }
  }

  /** With a description the rule writes what the older missing-file README
      rule writes; without one it adds a trailing blank line. */
  lemma ReadmeTextVsOlder(name: string, description: Option<string>)
    ensures MissingFiles.HasDescription(description) ==>
      ReadmeText(name, description) == MissingFiles.ReadmeContents(name, description)
    ensures !MissingFiles.HasDescription(description) ==>
      ReadmeText(name, description) == MissingFiles.ReadmeContents(name, description) + "\n"
  {
  }

  /** `MustHaveReadmeFix` for one repository. */
  datatype MustHaveReadmeFix = MustHaveReadmeFix(repo: RepoInfo)
  {
    function Contents(): string
    {
      ReadmeText(repo.name, repo.description)
    }

    function Step(s: WorkTree): Effect
    {
      if IsFile(s, ReadmeFile) then Effect(Done([]), s)
      else WriteAddCommit(s, ReadmeFile, Contents(), ReadmeMessage)
    }

    method Run(g: GitWorkingDir) returns (o: Outcome)
      modifies g
      ensures Effect(o, g.State()) == Step(old(g.State()))
    {
      var existing := g.ReadFile(ReadmeFile);
      if existing.Some? {
        return Done([]);
      }
      var err := g.Write(ReadmeFile, Contents());
      if err.Some? {
        return Raised(err.value);
      }
      err := g.Stage(ReadmeFile);
      err := g.CommitAll(ReadmeMessage);
      if err.Some? {
        return Raised(err.value);
      }
      o := Done([ReadmeMessage]);
    }
  }

  /** The rule keeps the reporting contract and reports at most its one message. */
  lemma ReadmeLaw(fix: MustHaveReadmeFix, s: WorkTree)
    ensures Reported(s, fix.Step(s))
    ensures fix.Step(s).outcome.Done? ==> fix.Step(s).outcome.changes in {[], [ReadmeMessage]}
    ensures fix.Step(s).outcome == Done([]) ==> fix.Step(s).after == s
  {
    NothingReported(s);
    if !IsFile(s, ReadmeFile) {
      WriteAddCommitLaw(s, ReadmeFile, fix.Contents(), ReadmeMessage);
    }
  }

  /** There is no applicability test: on a clean checkout where `README.md`
      is not a directory, the rule adds it exactly when it is missing, for
      any repository, and never raises. */
  lemma ReadmeOutcome(fix: MustHaveReadmeFix, s: WorkTree)
    requires Clean(s) && ReadmeFile !in s.dirs
    ensures fix.Step(s).outcome == (if IsFile(s, ReadmeFile) then Done([]) else Done([ReadmeMessage]))
    ensures !IsFile(s, ReadmeFile) ==>
      fix.Step(s).after.files == s.files[ReadmeFile := ReadmeText(fix.repo.name, fix.repo.description)]
  {
    ReadmeAtRoot();
    if !IsFile(s, ReadmeFile) {
      WriteAddCommitLaw(s, ReadmeFile, fix.Contents(), ReadmeMessage);
    }
  }

  /** After the rule added the README, a second run is a no-op. */
  lemma ReadmeSecondRun(fix: MustHaveReadmeFix, s: WorkTree)
    requires fix.Step(s).outcome == Done([ReadmeMessage])
    ensures fix.Step(fix.Step(s).after) == Effect(Done([]), fix.Step(s).after)
  {
    WriteAddCommitLaw(s, ReadmeFile, fix.Contents(), ReadmeMessage);
  }
}
