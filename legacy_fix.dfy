/**
  The older rule module: a README rule that only reads the file, and a
  demonstration rule that commits a fixed file.  Its composite is
  `Composite.RunAll`.
 */
module LegacyFix {
  import opened Wrappers
  import opened Git
  import opened FixersBase

  const ReadmeFile: Path := "README.md"

  /** The older `ReadmeFix.run`: reads `README.md` when it is there and
      reports no change either way, leaving the working copy alone. */
  method ReadmeRun(g: GitWorkingDir) returns (o: Outcome)
    ensures o == Done([])
  {
    var contents := g.ReadFile(ReadmeFile);
    if contents.None? {
      return Done([]);
    }
    return Done([]);
  }

  const DummyFile: Path := "test.txt"
  const DummyText: string := "hello, world"
  const DummyMessage: string := "Adding a test.txt file"

  /** `DummyFix.run`: writes `test.txt`, stages it, commits it. */
  function DummyStep(s: WorkTree): Effect
  {
    WriteAddCommit(s, DummyFile, DummyText, DummyMessage)
  }

  method DummyRun(g: GitWorkingDir) returns (o: Outcome)
    modifies g
    ensures Effect(o, g.State()) == DummyStep(old(g.State()))
  {
    var err := g.Write(DummyFile, DummyText);
    if err.Some? {
      return Raised(err.value);
    }
    err := g.Stage(DummyFile);
    err := g.CommitAll(DummyMessage);
    if err.Some? {
      return Raised(err.value);
    }
    o := Done([DummyMessage]);
  }

  /** The rule keeps the reporting contract, and what it reports is the one
      commit message it used, with `test.txt` holding the fixed text. On a
      clean checkout whose `test.txt` does not already hold that text, it
      always returns; when it does, the commit finds nothing to record. */
  lemma DummyLaw(s: WorkTree)
    ensures Reported(s, DummyStep(s))
    ensures DummyStep(s).outcome.Done? ==>
      DummyStep(s).outcome == Done([DummyMessage]) && DummyStep(s).after.files == s.files[DummyFile := DummyText]
    ensures Clean(s) && DummyFile !in s.dirs && (DummyFile !in s.files || s.files[DummyFile] != DummyText) ==>
      DummyStep(s).outcome == Done([DummyMessage])
    ensures Clean(s) && DummyFile in s.files && s.files[DummyFile] == DummyText ==>
      DummyStep(s).outcome.Raised?
  {
    assert forall i | 0 <= i < |DummyFile| :: DummyFile[i] != '/';
    ParentOfLast("", DummyFile);
    WriteAddCommitLaw(s, DummyFile, DummyText, DummyMessage);
    if Clean(s) && DummyFile in s.files && s.files[DummyFile] == DummyText {
      assert s.files[DummyFile := DummyText] == s.files;
    }
  }
}
