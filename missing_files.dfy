/**
  The older missing-file rule and the rules built on it, as the per-repository
  driver runs them.  The older rule differs from the current one in two
  ways: its commit message lacks the `chore: ` prefix, and it writes
  whatever its contents are without checking for `None` first.
 */
module MissingFiles {
  import opened Wrappers
  import opened Text
  import opened Git
  import opened GitHub
  import opened Templates
  import opened FixersBase
  import Maven

  /** What `f.write(None)` raises once the file has been opened for writing. */
  const WriteNoneError: string := "TypeError: write() argument must be str, not None"

  /** The older rule: the target and its inputs are those of the current
      rule, kept in `target`. */
  datatype LegacyMissingFileFix = LegacyMissingFileFix(target: MissingFileFix)
  {
    function RelativePath(): Path
    {
      target.RelativePath()
    }

    function Message(): string
    {
      "Adding " + RelativePath()
    }

    function Step(s: WorkTree): Effect
    {
      var e := EnsureDirs(s, target.directoryParts, 0);
      if e.outcome.Raised? then e
      else
        var s1 := e.after;
        var p := RelativePath();
        if IsFile(s1, p) then Effect(Done([]), s1)
        else if !target.applies(s1) then Effect(Done([]), s1)
        else
          match target.contents
          case FetchFailed(err) => Effect(Raised(err), s1)
          case NoContent =>
            // `open(..., "w")` has already created the file when `write` fails.
            (match WriteFile(s1, p, "")
             case Err(err) => Effect(Raised(err), s1)
             case Ok(s2) => Effect(Raised(WriteNoneError), s2))
          case Content(text) => WriteAddCommit(s1, p, text, Message())
    }

    method Run(g: GitWorkingDir) returns (o: Outcome)
      modifies g
      ensures Effect(o, g.State()) == Step(old(g.State()))
    {
      var err := EnsureDirectories(g, target.directoryParts);
      if err.Some? {
        return Raised(err.value);
      }
      var p := RelativePath();
      if p in g.files {
        return Done([]);
      }
      var s1 := g.State();
      if !target.applies(s1) {
        return Done([]);
      }
      match target.contents {
        case FetchFailed(e) =>
          return Raised(e);
        case NoContent =>
          err := g.Write(p, "");
          if err.Some? {
            return Raised(err.value);
          }
          return Raised(WriteNoneError);
        case Content(text) =>
          err := g.Write(p, text);
          if err.Some? {
            return Raised(err.value);
          }
          err := g.Stage(p);
          err := g.CommitAll(Message());
          if err.Some? {
            return Raised(err.value);
          }
          o := Done([Message()]);
      }
    }
  }

  /** The older constructor: the same validation and split as the current one. */
  function NewLegacyMissingFileFix(filename: string, applies: WorkTree -> bool, contents: ContentSource): (r: Result<LegacyMissingFileFix>)
    ensures r.Ok? <==> SplitTarget(filename).Ok?
    ensures r.Err? ==> r.error == SplitTarget(filename).error
    ensures r.Ok? ==> r.value.RelativePath() == Replace(filename, "\\", "/")
    ensures r.Ok? ==> r.value.target.applies == applies && r.value.target.contents == contents
  {
    match NewMissingFileFix(filename, applies, contents)
    case Err(e) => Err(e)
    case Ok(fix) => Ok(LegacyMissingFileFix(fix))
  }

  /** The older rule keeps the reporting contract. */
  lemma LegacyLaw(fix: LegacyMissingFileFix, s: WorkTree)
    ensures Reported(s, fix.Step(s))
    ensures fix.Step(s).outcome.Done? ==> fix.Step(s).outcome.changes in {[], [fix.Message()]}
  {
    EnsureDirsReported(s, fix.target.directoryParts);
    EnsureDirsFrame(s, fix.target.directoryParts, 0);
    var e := EnsureDirs(s, fix.target.directoryParts, 0);
    if e.outcome.Done? && fix.target.contents.Content? {
      var s1 := e.after;
      var e2 := WriteAddCommit(s1, fix.RelativePath(), fix.target.contents.text, fix.Message());
      WriteAddCommitLaw(s1, fix.RelativePath(), fix.target.contents.text, fix.Message());
      if Clean(s) && e2.outcome.Done? {
        AppendedTrans(s, s1, e2.after, [], [fix.Message()]);
      }
    }
  }

  /** Apart from the commit message, the older rule behaves like the current
      one whenever the contents are there or their download failed: the same
      files, and a change exactly when the current rule reports one. */
  lemma LegacyAgreesWithCurrent(fix: LegacyMissingFileFix, s: WorkTree)
    requires !fix.target.contents.NoContent?
    ensures fix.Step(s).outcome.Done? <==> fix.target.Step(s).outcome.Done?
    ensures fix.Step(s).after.files == fix.target.Step(s).after.files
    ensures fix.Step(s).outcome.Done? ==>
      (fix.Step(s).outcome.changes == [] <==> fix.target.Step(s).outcome.changes == [])
  {
  }

  /** Without contents (the older base class's default), the older rule
      leaves an empty file behind and raises, where the current one returns
      no changes. */
  lemma LegacyNoContentRaises(fix: LegacyMissingFileFix, s: WorkTree)
    requires fix.target.contents.NoContent?
    requires EnsureDirs(s, fix.target.directoryParts, 0).outcome.Done?
    requires var s1 := EnsureDirs(s, fix.target.directoryParts, 0).after;
      !IsFile(s1, fix.RelativePath()) && fix.target.applies(s1) && WriteFile(s1, fix.RelativePath(), "").Ok?
    ensures fix.Step(s).outcome == Raised(WriteNoneError)
    ensures fix.Step(s).after.files[fix.RelativePath()] == ""
    ensures fix.target.Step(s).outcome == Done([])
  {
  }
  /** On a clean checkout whose directory prefixes are not files and whose
      target is not a directory, an older rule with contents never raises:
      it commits its one message exactly when the file was absent and the rule
      applies, and the file then holds the contents. */
  lemma LegacyOutcome(fix: LegacyMissingFileFix, s: WorkTree)
    requires ValidSegments(fix.target.directoryParts + [fix.target.filenamePart])
    requires Clean(s) && fix.target.contents.Content?
    requires forall j :: 1 <= j <= |fix.target.directoryParts| ==> DirPrefix(fix.target.directoryParts, j) !in s.files
    requires fix.RelativePath() !in s.dirs
    ensures var s1 := EnsureDirs(s, fix.target.directoryParts, 0).after;
      fix.Step(s).outcome ==
        (if !IsFile(s, fix.RelativePath()) && fix.target.applies(s1) then Done([fix.Message()]) else Done([]))
    ensures fix.Step(s).outcome != Done([]) ==>
      fix.Step(s).after.files == s.files[fix.RelativePath() := fix.target.contents.text]
  {
    MissingFileOutcome(fix.target, s);
    LegacyAgreesWithCurrent(fix, s);
    LegacyLaw(fix, s);
    EnsureDirsFrame(s, fix.target.directoryParts, 0);
    var s1 := EnsureDirs(s, fix.target.directoryParts, 0).after;
    WriteAddCommitLaw(s1, fix.RelativePath(), fix.target.contents.text, fix.Message());
  }

  /** After a run that created the file, a second run reports nothing and
      changes nothing. */
  lemma LegacySecondRun(fix: LegacyMissingFileFix, s: WorkTree)
    requires fix.Step(s).outcome == Done([fix.Message()])
    ensures fix.Step(fix.Step(s).after) == Effect(Done([]), fix.Step(s).after)
  {
    var parts := fix.target.directoryParts;
    var t := fix.Step(s).after;
    EnsureDirsFrame(s, parts, 0);
    var s1 := EnsureDirs(s, parts, 0).after;
    EnsureDirsReachedAll(s, parts, 0);
    WriteAddCommitLaw(s1, fix.RelativePath(), fix.target.contents.text, fix.Message());
    EnsureDirsPresent(t, parts, 0);
  }

  // ---------------------------------------------------------------------
  // The concrete rules of the older module.

  /** The older base class's `should_process_repo`: every repository. */
  predicate EveryRepository(s: WorkTree)
  {
    true
  }

  /** `MustHaveLicenseFix.should_process_repo`: neither private nor a fork,
      whatever the checkout holds. */
  function PublicSource(repo: RepoInfo): (applies: WorkTree -> bool)
    ensures forall s :: applies(s) <==> !repo.isPrivate && !repo.fork
  {
    s => !repo.isPrivate && !repo.fork
  }

  /** `MustHaveLicenseFix`: `LICENSE` for public repositories that are not
      forks; `contents` is the licence text its `get_contents` fills in
      (`LicenseContents` of the year and the git user's name). */
  function LegacyLicenseFix(repo: RepoInfo, contents: string): (r: LegacyMissingFileFix)
    ensures r.target.directoryParts == [] && r.target.filenamePart == "LICENSE"
    ensures r.target.applies == PublicSource(repo)
    ensures r.target.contents == Content(contents)
  {
    PlainName("LICENSE");
    LegacyMissingFileFix(FixedMissingFileFix([], "LICENSE", PublicSource(repo), Content(contents)))
  }

  /** A private repository or a fork gets no licence: the run reports
      nothing and leaves the checkout exactly as it was. */
  lemma LegacyLicenseSkipsPrivateAndForks(repo: RepoInfo, contents: string, s: WorkTree)
    requires repo.isPrivate || repo.fork
    ensures LegacyLicenseFix(repo, contents).Step(s) == Effect(Done([]), s)
  {
  }

  /** Python's truth value of the repository description: present and non-empty. */
  predicate HasDescription(description: Option<string>)
  {
    description.Some? && description.value != ""
  }

  /** The README the older rule writes: a title line, then a blank line and
      the description only when there is one. */
  function ReadmeContents(name: string, description: Option<string>): (r: string)
    ensures StartsWith(r, "# " + name + "\n")
  {
    "# " + name + "\n" + (if HasDescription(description) then "\n" + description.value + "\n" else "")
  }

  /** Read back line by line, the README is the title line followed, when
      there is a description, by a blank line and the description. */
  lemma ReadmeContentsLines(name: string, description: Option<string>)
    requires NoBoundary(name)
    requires description.Some? ==> NoBoundary(description.value)
    ensures SplitLines(ReadmeContents(name, description)) ==
      ["# " + name] + (if HasDescription(description) then ["", description.value] else [])
  {
    var title := "# " + name;
    assert NoBoundary("# ");
    NoBoundaryAppend("# ", name);
    if HasDescription(description) {
      var d := description.value;
      var lines := [title, "", d];
      assert ReadmeContents(name, description) == Join("\n", lines) + "\n" by {
        assert lines[1..] == ["", d] && lines[1..][1..] == [d];
        assert Join("\n", lines[1..][1..]) == d;
        assert Join("\n", lines[1..]) == "\n" + d;
      }
      SplitLinesJoinNewline(lines);
    } else {
      assert ReadmeContents(name, description) == Join("\n", [title]) + "\n";
      SplitLinesJoinNewline([title]);
    }
  }

  /** `MustHaveReadmeFix`: `README.md` for every repository. */
  function LegacyReadmeFix(repo: RepoInfo): (r: LegacyMissingFileFix)
    ensures r.target.directoryParts == [] && r.target.filenamePart == "README.md"
    ensures r.target.applies == EveryRepository
    ensures r.target.contents == Content(ReadmeContents(repo.name, repo.description))
  {
    PlainName("README.md");
    LegacyMissingFileFix(FixedMissingFileFix([], "README.md", EveryRepository, Content(ReadmeContents(repo.name, repo.description))))
  }

  /** `MustHaveEditorConfigFix`: `.editorconfig` for every repository. */
  function LegacyEditorConfigFix(): (r: LegacyMissingFileFix)
    ensures r.target.directoryParts == [] && r.target.filenamePart == ".editorconfig"
    ensures r.target.applies == EveryRepository
    ensures r.target.contents == Content(EditorConfig)
  {
    PlainName(".editorconfig");
    LegacyMissingFileFix(FixedMissingFileFix([], ".editorconfig", EveryRepository, Content(EditorConfig)))
  }

  /** `MustHaveGitHubFundingFix`: `.github/FUNDING.yml` for every repository,
      creating `.github` first. */
  function LegacyFundingFix(): (r: LegacyMissingFileFix)
    ensures r.target.directoryParts == [".github"] && r.target.filenamePart == "FUNDING.yml"
    ensures r.target.applies == EveryRepository
    ensures r.target.contents == Content(FundingYml)
  {
    PlainDirName(".github", "FUNDING.yml");
    LegacyMissingFileFix(FixedMissingFileFix([".github"], "FUNDING.yml", EveryRepository, Content(FundingYml)))
  }

  /** The older `MustHaveMavenGitHubWorkflow`: the Maven workflow, for Maven projects. */
  function LegacyMavenWorkflowFix(): (r: LegacyMissingFileFix)
    ensures r.target == Maven.MavenWorkflowFix()
    ensures r.target.applies == Maven.IsMavenProject
    ensures r.target.contents == Content(MavenYml)
  {
    LegacyMissingFileFix(Maven.MavenWorkflowFix())
  }

  /** The older `MustHaveMavenGitIgnore`: the downloaded Maven `.gitignore`,
      for Maven projects; a failed download raises. */
  function LegacyMavenGitIgnoreFix(download: Result<string>): (r: LegacyMissingFileFix)
    ensures r.target == Maven.MavenGitIgnoreFix(download)
    ensures r.target.applies == Maven.IsMavenProject
    ensures r.target.contents == FromDownload(download)
  {
    LegacyMissingFileFix(Maven.MavenGitIgnoreFix(download))
  }

  /** The licence rule, on a clean checkout without `LICENSE`: it adds the
      filled-in licence exactly for public non-fork repositories. */
  lemma LicenseOutcome(repo: RepoInfo, contents: string, s: WorkTree)
    requires Clean(s) && "LICENSE" !in s.dirs
    ensures var fix := LegacyLicenseFix(repo, contents);
      fix.Step(s).outcome ==
        (if !IsFile(s, "LICENSE") && !repo.isPrivate && !repo.fork then Done([fix.Message()]) else Done([]))
    ensures var e := LegacyLicenseFix(repo, contents).Step(s);
      e.outcome != Done([]) ==> e.after.files == s.files["LICENSE" := contents]
  {
    PlainName("LICENSE");
    LegacyOutcome(LegacyLicenseFix(repo, contents), s);
  }

  /** The README rule, on a clean checkout without `README.md`: it always adds it. */
  lemma ReadmeOutcome(repo: RepoInfo, s: WorkTree)
    requires Clean(s) && "README.md" !in s.dirs
    ensures var fix := LegacyReadmeFix(repo);
      fix.Step(s).outcome == (if IsFile(s, "README.md") then Done([]) else Done([fix.Message()]))
    ensures var e := LegacyReadmeFix(repo).Step(s);
      e.outcome != Done([]) ==> e.after.files == s.files["README.md" := ReadmeContents(repo.name, repo.description)]
  {
    PlainName("README.md");
    LegacyOutcome(LegacyReadmeFix(repo), s);
  }
}
