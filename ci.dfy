/**
  The continuous-integration rules: removing the Travis CI configuration
  and removing the Travis build badge from the README.
 */
module Ci {
  import opened Wrappers
  import opened Git
  import opened Regex
  import opened FixersBase

  // ---------------------------------------------------------------------
  // NoTravisFix

  const TravisYml: Path := ".travis.yml"
  const NoTravisMessage: string := "chore: Removed .travis.yml"

  /** `NoTravisFix.run`: `git rm` the Travis configuration and commit. */
  function NoTravisStep(s: WorkTree): Effect
  {
    if !IsFile(s, TravisYml) then Effect(Done([]), s)
    else
      match Rm(s, TravisYml)
      case Err(e) => Effect(Raised(e), s)
      case Ok(t) => CommitChange(t, NoTravisMessage)
  }

  method NoTravis(g: GitWorkingDir) returns (o: Outcome)
    modifies g
    ensures Effect(o, g.State()) == NoTravisStep(old(g.State()))
  {
    var existing := g.ReadFile(TravisYml);
    if existing.None? {
      return Done([]);
    }
    var err := g.Remove(TravisYml);
    if err.Some? {
      return Raised(err.value);
    }
    err := g.CommitAll(NoTravisMessage);
    if err.Some? {
      return Raised(err.value);
    }
    return Done([NoTravisMessage]);
  }

  /** The rule keeps the reporting contract; it reports at most its one
      message, and when it reports nothing it has changed nothing. On a
      clean checkout it reports the message exactly when `.travis.yml`
      exists, and the file is gone afterwards. */
  lemma NoTravisLaw(s: WorkTree)
    ensures Reported(s, NoTravisStep(s))
    ensures NoTravisStep(s).outcome.Done? ==> NoTravisStep(s).outcome.changes in {[], [NoTravisMessage]}
    ensures NoTravisStep(s).outcome == Done([]) ==> NoTravisStep(s).after == s && !IsFile(s, TravisYml)
    ensures NoTravisStep(s).outcome.Done? ==> NoTravisStep(s).after.files == s.files - {TravisYml}
    ensures Clean(s) ==> NoTravisStep(s).outcome == (if IsFile(s, TravisYml) then Done([NoTravisMessage]) else Done([]))
  {
    NothingReported(s);
    if IsFile(s, TravisYml) {
      match Rm(s, TravisYml)
      case Err(_) =>
      case Ok(t) =>
        assert HeadHistory(t) == HeadHistory(s);
        if Clean(s) {
          CommitChangeReported(t, NoTravisMessage);
          assert TravisYml in HeadTree(t) && TravisYml !in t.index;
        }
    } else {
      assert s.files - {TravisYml} == s.files;
    }
  }

  /** After a run that returned, a second run does nothing. */
  lemma NoTravisSecondRun(s: WorkTree)
    requires NoTravisStep(s).outcome.Done?
    ensures NoTravisStep(NoTravisStep(s).after) == Effect(Done([]), NoTravisStep(s).after)
  {
    NoTravisLaw(s);
  }

  // ---------------------------------------------------------------------
  // NoTravisBadgeFix

  /** The replacement of `RE_BADGE.sub("", ...)`: every match is deleted. */
  function Erase(m: Match): string
  {
    ""
  }

  /** `remove_travis_badge`. */
  function RemoveTravisBadge(contents: string): string
  {
    Sub(TravisBadge, contents, Erase, 0)
  }

  /** Somewhere in the text a Travis build badge begins. */
  predicate HasTravisBadge(contents: string)
  {
    exists j :: 0 <= j <= |contents| && TravisBadgeAt(contents, j).Some?
  }

  /** Deleting the matches never lengthens the text, and shortens it as soon
      as one match remains to be found from `i` on. */
  lemma {:induction false} EraseShrinks(s: string, i: nat)
    requires i <= |s|
    ensures |Sub(TravisBadge, s, Erase, i)| <= |s| - i
    ensures (exists j :: i <= j <= |s| && TravisBadgeAt(s, j).Some?) ==> |Sub(TravisBadge, s, Erase, i)| < |s| - i
    decreases |s| - i
  {
    if i < |s| {
      match MatchAt(TravisBadge, s, i)
      case Some(m) =>
        EraseShrinks(s, m.end);
      case None =>
        EraseShrinks(s, i + 1);
        if j :| i <= j <= |s| && TravisBadgeAt(s, j).Some? {
          assert j != i;
        }
    }
  }

  /** The README changes exactly when it holds a Travis badge. */
  lemma RemoveTravisBadgeChanges(contents: string)
    ensures RemoveTravisBadge(contents) == contents <==> !HasTravisBadge(contents)
  {
    if HasTravisBadge(contents) {
      EraseShrinks(contents, 0);
    } else {
      NoMatchNoChange(TravisBadge, contents, Erase);
    }
  }

  function RemoveTravisBadgeConvert(s: WorkTree, contents: string): string
  {
    RemoveTravisBadge(contents)
  }

  /** `NoTravisBadgeFix`: the badge removal applied to `README.md`. */
  function NoTravisBadgeFix(): (r: SingleFileFix)
    ensures r.filename == "README.md" && r.msg == "chore: Removed Travis badge from README"
    ensures r.convert == RemoveTravisBadgeConvert
  {
    SingleFileFix("README.md", "chore: Removed Travis badge from README", RemoveTravisBadgeConvert)
  }

  /** On a clean, well-formed checkout the rule commits exactly when the
      README exists and holds a Travis badge, and otherwise changes nothing. */
  lemma NoTravisBadgeOutcome(s: WorkTree)
    requires Clean(s) && WellFormed(s)
    ensures var fix := NoTravisBadgeFix();
      fix.Step(s).outcome ==
        (if IsFile(s, fix.filename) && HasTravisBadge(s.files[fix.filename]) then Done([fix.msg]) else Done([]))
  {
    var fix := NoTravisBadgeFix();
    SingleFileLaw(fix, s);
    if IsFile(s, fix.filename) {
      RemoveTravisBadgeChanges(s.files[fix.filename]);
    }
  }
}
