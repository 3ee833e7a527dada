/**
  The rule that adds an MIT licence to a public repository that has none.
  The current year and the git user's name are inputs of the rule.
 */
module MustHaveLicense {
  import opened Wrappers
  import opened Git
  import opened GitHub
  import opened Templates
  import opened FixersBase
  import MissingFiles

  const LicenseFile: Path := "LICENSE"
  const LicenseMessage: string := "Adding LICENSE to repository"

  /** `LICENSE` sits at the root of the working copy. */
  lemma LicenseAtRoot()
    ensures Parent(LicenseFile) == ""
  {
    assert PlainSegment(LicenseFile);
    ParentOfLast("", LicenseFile);
  }

  /** `MustHaveLicenseFix` for one repository; `contents` is the licence
      text the run fills in (see `NewMustHaveLicenseFix`). */
  datatype MustHaveLicenseFix = MustHaveLicenseFix(repo: RepoInfo, contents: string)
  {
    function Step(s: WorkTree): Effect
    {
      if IsFile(s, LicenseFile) then Effect(Done([]), s)
      else if repo.isPrivate || repo.fork then Effect(Done([]), s)
      else WriteAddCommit(s, LicenseFile, contents, LicenseMessage)
    }

    method Run(g: GitWorkingDir) returns (o: Outcome)
      modifies g
      ensures Effect(o, g.State()) == Step(old(g.State()))
    {
      var existing := g.ReadFile(LicenseFile);
      if existing.Some? {
        return Done([]);
      }
      if repo.isPrivate || repo.fork {
        return Done([]);
      }
      var err := g.Write(LicenseFile, contents);
      if err.Some? {
        return Raised(err.value);
      }
      err := g.Stage(LicenseFile);
      err := g.CommitAll(LicenseMessage);
      if err.Some? {
        return Raised(err.value);
      }
      o := Done([LicenseMessage]);
    }
  }

  /** The rule as a run in `year` by the git user `userName` builds it: the
      licence template with the year and the name filled in. */
  function NewMustHaveLicenseFix(repo: RepoInfo, year: nat, userName: string): (r: MustHaveLicenseFix)
    ensures r.repo == repo && r.contents == LicenseContents(year, userName)
  {
    MustHaveLicenseFix(repo, LicenseContents(year, userName))
  }

  /** The rule keeps the reporting contract and reports at most its one message. */
  lemma LicenseLaw(fix: MustHaveLicenseFix, s: WorkTree)
    ensures Reported(s, fix.Step(s))
    ensures fix.Step(s).outcome.Done? ==> fix.Step(s).outcome.changes in {[], [LicenseMessage]}
    ensures fix.Step(s).outcome == Done([]) ==> fix.Step(s).after == s
  {
    NothingReported(s);
    if !IsFile(s, LicenseFile) && !fix.repo.isPrivate && !fix.repo.fork {
      WriteAddCommitLaw(s, LicenseFile, fix.contents, LicenseMessage);
    }
  }

  /** An existing `LICENSE` is checked first: whatever the repository's
      visibility, nothing is written and nothing is reported. */
  lemma LicenseExistingFirst(fix: MustHaveLicenseFix, s: WorkTree, other: RepoInfo)
    requires IsFile(s, LicenseFile)
    ensures fix.Step(s) == Effect(Done([]), s)
    ensures fix.(repo := other).Step(s) == Effect(Done([]), s)
  {
  }

  /** Private repositories and forks never get a licence. */
  lemma LicenseSkipsPrivateAndForks(fix: MustHaveLicenseFix, s: WorkTree)
    requires fix.repo.isPrivate || fix.repo.fork
    ensures fix.Step(s) == Effect(Done([]), s)
  {
  }

  /** On a clean checkout where `LICENSE` is not a directory, the rule never
      raises: it adds the filled-in licence and reports its message exactly
      when the file was missing and the repository is public and not a fork. */
  lemma LicenseOutcome(fix: MustHaveLicenseFix, s: WorkTree)
    requires Clean(s) && LicenseFile !in s.dirs
    ensures fix.Step(s).outcome ==
      (if !IsFile(s, LicenseFile) && !fix.repo.isPrivate && !fix.repo.fork then Done([LicenseMessage]) else Done([]))
    ensures fix.Step(s).outcome != Done([]) ==>
      fix.Step(s).after.files == s.files[LicenseFile := fix.contents]
  {
    LicenseAtRoot();
    if !IsFile(s, LicenseFile) && !fix.repo.isPrivate && !fix.repo.fork {
      WriteAddCommitLaw(s, LicenseFile, fix.contents, LicenseMessage);
    }
  }

  /** After the rule added the licence, a second run is a no-op. */
  lemma LicenseSecondRun(fix: MustHaveLicenseFix, s: WorkTree)
    requires fix.Step(s).outcome == Done([LicenseMessage])
    ensures fix.Step(fix.Step(s).after) == Effect(Done([]), fix.Step(s).after)
  {
    WriteAddCommitLaw(s, LicenseFile, fix.contents, LicenseMessage);
  }

  /** The rule and the older missing-file licence rule decide alike and write
      the same file; only their commit messages differ. */
  lemma AgreesWithOlderRule(fix: MustHaveLicenseFix, s: WorkTree)
    requires Clean(s) && LicenseFile !in s.dirs
    ensures var older := MissingFiles.LegacyLicenseFix(fix.repo, fix.contents).Step(s);
      && (fix.Step(s).outcome == Done([]) <==> older.outcome == Done([]))
      && fix.Step(s).after.files == older.after.files
  {
    LicenseOutcome(fix, s);
    MissingFiles.LicenseOutcome(fix.repo, fix.contents, s);
    var older := MissingFiles.LegacyLicenseFix(fix.repo, fix.contents);
    EnsureDirsFrame(s, older.target.directoryParts, 0);
    MissingFiles.LegacyLaw(older, s);
  }
}
