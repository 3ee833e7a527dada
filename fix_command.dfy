/**
  The per-repository driver of the `fix` command: prepare the work branch,
  run the rules, compare what git and the rules say changed, and open a
  pull request whose body lists the changes.
 */
module FixCommand {
  import opened Wrappers
  import opened Text
  import opened Git
  import opened GitHub
  import opened FixersBase
  import opened Composite
  import Maven
  import MissingFiles
  import Readme
  import RepoDescription
  import Templates

  // ---------------------------------------------------------------------
  // The pull-request body.

  const BodyHeader: string := "The following fixes have been applied:\n"

  /** The stripped lines kept by `non_empty_lines`: the empty ones dropped. */
  function KeepNonEmpty(lines: seq<string>): (r: seq<string>)
    ensures |r| <= |lines|
  {
    if lines == [] then []
    else
      var l := Strip(lines[0]);
      (if l != "" then [l] else []) + KeepNonEmpty(lines[1..])
  }

  /** `non_empty_lines`: split on `\n`, strip, drop the empty lines. */
  function NonEmptyLines(s: string): seq<string>
  {
    KeepNonEmpty(Split(s, '\n'))
  }

  lemma {:induction false} KeepNonEmptyMember(lines: seq<string>, x: string)
    ensures x in KeepNonEmpty(lines) <==> x != "" && exists k :: 0 <= k < |lines| && Strip(lines[k]) == x
    decreases |lines|
  {
    if lines != [] {
      KeepNonEmptyMember(lines[1..], x);
      if exists k :: 0 <= k < |lines[1..]| && Strip(lines[1..][k]) == x {
        var k :| 0 <= k < |lines[1..]| && Strip(lines[1..][k]) == x;
        assert Strip(lines[k + 1]) == x;
      }
      if k :| 0 <= k < |lines| && Strip(lines[k]) == x {
        if k > 0 {
          assert Strip(lines[1..][k - 1]) == x;
        }
      }
    }
  }

  /** Every line `non_empty_lines` gives is non-empty, stripped, and holds
      no `\n`. */
  lemma NonEmptyLinesShape(s: string, x: string)
    requires x in NonEmptyLines(s)
    ensures x != "" && Stripped(x) && '\n' !in x
  {
    var parts := Split(s, '\n');
    KeepNonEmptyMember(parts, x);
    var k :| 0 <= k < |parts| && Strip(parts[k]) == x;
    StripKeepsOut(parts[k], '\n');
  }

  /** A text made only of whitespace has no non-empty line. */
  lemma BlankHasNoLines(s: string)
    requires forall i :: 0 <= i < |s| ==> IsSpace(s[i])
    ensures NonEmptyLines(s) == []
  {
    var parts := Split(s, '\n');
    SplitChars(s, '\n');
    if NonEmptyLines(s) != [] {
      var x := NonEmptyLines(s)[0];
      KeepNonEmptyMember(parts, x);
      assert false;
    }
  }

  /** A single stripped line is its own only line. */
  lemma OneLine(x: string)
    requires x != "" && Stripped(x) && '\n' !in x
    ensures NonEmptyLines(x) == [x]
  {
    assert Split(x, '\n') == [x];
    StripOfStripped(x);
    assert KeepNonEmpty([x]) == [x] + KeepNonEmpty([]);
  }

  /** The lines of one change: `- ` before the first, two spaces before
      each later one, `\n` after every one. */
  function Bullet(lines: seq<string>): string
    decreases |lines|
  {
    if lines == [] then ""
    else Bullet(lines[..|lines| - 1]) + (if |lines| == 1 then "- " else "  ") + lines[|lines| - 1] + "\n"
  }

  /** The lines `lines` gives for each change, change by change. */
  function MapLines(lines: string -> seq<string>, changes: seq<string>): (ls: seq<seq<string>>)
    ensures |ls| == |changes|
    decreases |changes|
  {
    if changes == [] then []
    else MapLines(lines, changes[..|changes| - 1]) + [lines(changes[|changes| - 1])]
  }

  lemma {:induction false} MapLinesAt(lines: string -> seq<string>, changes: seq<string>, k: nat)
    requires k < |changes|
    ensures MapLines(lines, changes)[k] == lines(changes[k])
    decreases |changes|
  {
    var n := |changes| - 1;
    if k < n {
      MapLinesAt(lines, changes[..n], k);
    }
  }

  lemma {:induction false} MapLinesAppend(lines: string -> seq<string>, a: seq<string>, b: seq<string>)
    ensures MapLines(lines, a + b) == MapLines(lines, a) + MapLines(lines, b)
    decreases |b|
  {
    if b == [] {
      assert a + b == a;
    } else {
      var c := a + b;
      var n := |b| - 1;
      assert c[..|c| - 1] == a + b[..n];
      MapLinesAppend(lines, a, b[..n]);
    }
  }

  /** The non-empty lines of each change. */
  function LinesOf(changes: seq<string>): (ls: seq<seq<string>>)
    ensures |ls| == |changes|
  {
    MapLines(NonEmptyLines, changes)
  }

  /** The rendered changes, in order. */
  function Items(ls: seq<seq<string>>): string
    decreases |ls|
  {
    if ls == [] then "" else Items(ls[..|ls| - 1]) + Bullet(ls[|ls| - 1])
  }

  function Body(changes: seq<string>): string
  {
    BodyHeader + Items(LinesOf(changes))
  }

  /** The inner loop of `format_body`: the lines of one change appended
      to the body. */
  method AppendBullet(body: string, lines: seq<string>) returns (r: string)
    ensures r == body + Bullet(lines)
  {
    r := body;
    var first := true;
    for j := 0 to |lines|
      invariant first <==> j == 0
      invariant r == body + Bullet(lines[..j])
    {
      ghost var prefix := if first then "- " else "  ";
      if first {
        r := r + "- ";
        first := false;
      } else {
        r := r + "  ";
      }
      r := r + lines[j] + "\n";
      assert lines[..j + 1][..j] == lines[..j];
      assert Bullet(lines[..j + 1]) == Bullet(lines[..j]) + prefix + lines[j] + "\n";
    }
    assert lines[..|lines|] == lines;
  }

  /** `format_body`. */
  method FormatBody(changes: seq<string>) returns (body: string)
    ensures body == Body(changes)
  {
    body := BodyHeader;
    for i := 0 to |changes|
      invariant body == BodyHeader + Items(LinesOf(changes[..i]))
    {
      ghost var done := LinesOf(changes[..i]);
      var lines := NonEmptyLines(changes[i]);
      body := AppendBullet(body, lines);
      LinesOfSnoc(changes, i);
      assert (done + [lines])[..i] == done;
      assert Items(done + [lines]) == Items(done) + Bullet(lines);
      ConcatAssoc(BodyHeader, Items(done), Bullet(lines));
    }
    assert changes[..|changes|] == changes;
  }

  lemma LinesOfSnoc(changes: seq<string>, i: nat)
    requires i < |changes|
    ensures LinesOf(changes[..i + 1]) == LinesOf(changes[..i]) + [NonEmptyLines(changes[i])]
  {
    assert changes[..i + 1][..i] == changes[..i];
  }

  /** The changes render in order: the body of two lists of changes is the
      body of the first followed by the items of the second. */
  lemma {:induction false} ItemsAppend(a: seq<seq<string>>, b: seq<seq<string>>)
    ensures Items(a + b) == Items(a) + Items(b)
    decreases |b|
  {
    if b == [] {
      assert a + b == a;
    } else {
      var c := a + b;
      assert c[..|c| - 1] == a + b[..|b| - 1];
      assert c[|c| - 1] == b[|b| - 1];
      ItemsAppend(a, b[..|b| - 1]);
      assert Items(c) == Items(a + b[..|b| - 1]) + Bullet(b[|b| - 1]);
      assert Items(b) == Items(b[..|b| - 1]) + Bullet(b[|b| - 1]);
      ConcatAssoc(Items(a), Items(b[..|b| - 1]), Bullet(b[|b| - 1]));
    }
  }

  lemma ConcatAssoc(x: string, y: string, z: string)
    ensures (x + y) + z == x + (y + z)
  {
  }

  lemma LinesOfAppend(a: seq<string>, b: seq<string>)
    ensures LinesOf(a + b) == LinesOf(a) + LinesOf(b)
  {
    MapLinesAppend(NonEmptyLines, a, b);
  }

  /** The body of two lists of changes is the body of the first followed by
      the rendered second: changes appear in order. */
  lemma BodyAppend(a: seq<string>, b: seq<string>)
    ensures Body(a + b) == Body(a) + Items(LinesOf(b))
  {
    LinesOfAppend(a, b);
    ItemsAppend(LinesOf(a), LinesOf(b));
  }

  /** A change made only of whitespace adds nothing to the body. */
  lemma BlankChangeInvisible(changes: seq<string>, c: string)
    requires forall i :: 0 <= i < |c| ==> IsSpace(c[i])
    ensures Body(changes + [c]) == Body(changes)
  {
    BlankHasNoLines(c);
    BodyAppend(changes, [c]);
    assert LinesOf([c]) == [[]];
    assert Items([[]]) == Items([]) + Bullet([]);
  }

  /** The expected rendering of one-line changes, written independently:
      one `- ` line per change. */
  function ListItems(changes: seq<string>): string
  {
    if changes == [] then "" else "- " + changes[0] + "\n" + ListItems(changes[1..])
  }

  predicate OneLineChange(c: string)
  {
    c != "" && Stripped(c) && '\n' !in c
  }

  lemma ItemsOfOne(c: string)
    requires OneLineChange(c)
    ensures Items(LinesOf([c])) == "- " + c + "\n"
  {
    OneLine(c);
    assert LinesOf([c]) == [[c]];
    assert [[c]][..0] == [] && [c][..0] == [];
    assert Bullet([c]) == Bullet([]) + "- " + c + "\n";
    EmptyLeft("- ");
    assert Items([[c]]) == Items([]) + Bullet([c]);
    EmptyLeft(Bullet([c]));
  }

  /** Changes of one stripped line each render as one `- ` line each. */
  lemma {:induction false} OneLineChanges(changes: seq<string>)
    requires forall k :: 0 <= k < |changes| ==> OneLineChange(changes[k])
    ensures Items(LinesOf(changes)) == ListItems(changes)
    decreases |changes|
  {
    if changes != [] {
      assert changes == [changes[0]] + changes[1..];
      LinesOfAppend([changes[0]], changes[1..]);
      ItemsAppend(LinesOf([changes[0]]), LinesOf(changes[1..]));
      ItemsOfOne(changes[0]);
      OneLineChanges(changes[1..]);
    }
  }

  /** With no changes the body is the header alone; otherwise the header
      comes first. */
  lemma BodyHeaderFirst(changes: seq<string>)
    ensures changes == [] ==> Body(changes) == BodyHeader
    ensures StartsWith(Body(changes), BodyHeader)
  {
    assert Body(changes)[..|BodyHeader|] == BodyHeader;
  }

  /** The body for one one-line change. */
  lemma BodyOneChange(c: string)
    requires OneLineChange(c)
    ensures Body([c]) == BodyHeader + "- " + c + "\n"
  {
    ItemsOfOne(c);
    ConcatAssoc(BodyHeader, "- " + c, "\n");
    ConcatAssoc(BodyHeader, "- ", c);
  }

  /** Two one-line changes written as one text, each line ended by `\n`. */
  lemma TwoLineSplit(a: string, b: string)
    requires OneLineChange(a) && OneLineChange(b)
    ensures NonEmptyLines(a + "\n" + b + "\n") == [a, b]
  {
    var parts := [a, b, ""];
    TwoLineJoin(a, b);
    SplitJoin(parts, '\n');
    TwoLinesKept(a, b);
  }

  lemma TwoLineJoin(a: string, b: string)
    ensures Join(['\n'], [a, b, ""]) == a + "\n" + b + "\n"
  {
    JoinThree("\n", a, b, "");
    EmptyRight(b + "\n");
    Assoc(a + "\n", b, "\n");
  }

  lemma TwoLinesKept(a: string, b: string)
    requires OneLineChange(a) && OneLineChange(b)
    ensures KeepNonEmpty([a, b, ""]) == [a, b]
  {
    BlankDropped();
    KeptFirst(b, [""]);
    Pair(b, "");
    KeptFirst(a, [b, ""]);
    assert [a] + [b, ""] == [a, b, ""];
    EmptyRight([b]);
    Pair(a, b);
  }

  /** A stripped non-empty line is kept as it is, ahead of the rest. */
  lemma KeptFirst(l: string, rest: seq<string>)
    requires l != "" && Stripped(l)
    ensures KeepNonEmpty([l] + rest) == [l] + KeepNonEmpty(rest)
  {
    StripOfStripped(l);
    assert ([l] + rest)[1..] == rest;
  }

  lemma BlankDropped()
    ensures KeepNonEmpty([""]) == []
  {
    assert [""][1..] == [];
  }

  /** A change of two lines: the first becomes the bullet, the second is
      indented under it. */
  lemma BodyTwoLineChange(a: string, b: string)
    requires OneLineChange(a) && OneLineChange(b)
    ensures Body([a + "\n" + b + "\n"]) == BodyHeader + ("- " + a + "\n" + "  " + b + "\n")
  {
    var c := a + "\n" + b + "\n";
    TwoLineSplit(a, b);
    var lines := [a, b];
    BulletTwo(a, b);
    assert LinesOf([c]) == [lines] by {
      assert [c][..0] == [];
    }
    var one: seq<seq<string>> := [lines];
    assert one[..0] == [];
    assert Items(one) == Items([]) + Bullet(lines);
    assert Items(one) == Bullet(lines);
  }

  /** Two lines: the bullet, then the indented continuation. */
  lemma BulletTwo(a: string, b: string)
    ensures Bullet([a, b]) == "- " + a + "\n" + "  " + b + "\n"
  {
    var lines := [a, b];
    assert lines[..1] == [a] && lines[..1][..0] == [];
    assert Bullet(lines[..1]) == "- " + a + "\n";
  }

  // ---------------------------------------------------------------------
  // Branch preparation and the comparison with the default branch.

  const BranchName: string := "instarepo_branch"
  const PullTitle: string := "instarepo automatic PR"

  lemma RemoteRef()
    ensures StartsWith(RemotePrefix + BranchName, RemotePrefix)
    ensures (RemotePrefix + BranchName)[|RemotePrefix|..] == BranchName
  {
  }

  /** `prepare`: check out the work branch when the remote has it, create
      it from the current commit otherwise. */
  function PrepareStep(s: WorkTree): Result<WorkTree>
  {
    if RevParse(s, RemotePrefix + BranchName).Ok? then CheckoutBranch(s, BranchName)
    else CreateBranch(s, BranchName)
  }

  /** After a successful preparation the work branch is checked out: the
      remote one when it exists (a local one of that name wins), a new one
      at the current commit otherwise; nothing else changes in the refs. */
  lemma PrepareLaw(s: WorkTree)
    ensures PrepareStep(s).Ok? ==> PrepareStep(s).value.head == BranchName
    ensures BranchName in s.remotes && BranchName !in s.branches ==>
      PrepareStep(s).Ok? && PrepareStep(s).value.branches[BranchName] == s.remotes[BranchName] && Clean(PrepareStep(s).value)
    ensures BranchName !in s.remotes ==>
      (PrepareStep(s).Ok? <==> s.head in s.branches && BranchName !in s.branches)
    ensures BranchName !in s.remotes && PrepareStep(s).Ok? ==>
      PrepareStep(s).value == s.(branches := s.branches[BranchName := HeadHistory(s)], head := BranchName)
  {
    RemoteRef();
  }

  /** `has_changes`: the work branch and the default branch resolve to
      different commits; a ref that does not resolve raises. */
  function HasChanges(s: WorkTree, defaultBranch: string): Result<bool>
  {
    match RevParse(s, BranchName)
    case Err(e) => Err(e)
    case Ok(current) =>
      match RevParse(s, defaultBranch)
      case Err(e) => Err(e)
      case Ok(main) => Ok(current != main)
  }

  const GitOnlyWarning: string := "Git reports changes but the internal changes do not."
  const BugWarning: string := "This is likely a bug in the internal checker code."
  const RulesOnlyWarning: string := "Git does not report changes but the internal checkers report the following changes:"

  /** The warnings `process` logs when git and the rules disagree. */
  function Warnings(hasChanges: bool, changes: seq<string>): (w: seq<string>)
    ensures w != [] <==> hasChanges != (changes != [])
  {
    if hasChanges && changes == [] then [GitOnlyWarning, BugWarning]
    else if !hasChanges && changes != [] then [RulesOnlyWarning] + changes + [BugWarning]
    else []
  }

  // ---------------------------------------------------------------------
  // The rules `run_fixes` runs.

  /** The six working-copy rules, in the order `run_fixes` lists them. */
  function InOrder(maven: Maven.MavenWorld, editorConfig: MissingFiles.LegacyMissingFileFix,
                   funding: MissingFiles.LegacyMissingFileFix, license: MissingFiles.LegacyMissingFileFix,
                   readme: MissingFiles.LegacyMissingFileFix, images: SingleFileFix): (rules: seq<Rule>)
    ensures |rules| == 6
  {
    [ (t: WorkTree) => maven.Step(t),
      (t: WorkTree) => editorConfig.Step(t),
      (t: WorkTree) => funding.Step(t),
      (t: WorkTree) => license.Step(t),
      (t: WorkTree) => readme.Step(t),
      (t: WorkTree) => images.Step(t) ]
  }

  /** The rules of `run_fixes`, except the description rule, which only
      talks to GitHub and runs after them.  The Maven oracles, the current
      year and the git user's name are the outside world's; the licence is
      the MIT template filled with the last two. */
  function Registry(maven: Maven.MavenWorld, repo: RepoInfo, year: nat, userName: string): (rules: seq<Rule>)
    ensures |rules| == 6
  {
    InOrder(maven, MissingFiles.LegacyEditorConfigFix(), MissingFiles.LegacyFundingFix(),
      MissingFiles.LegacyLicenseFix(repo, Templates.LicenseContents(year, userName)), MissingFiles.LegacyReadmeFix(repo),
      Readme.ReadmeImageFix())
  }

  /** Every one of the rules keeps the reporting contract ... */
  lemma InOrderReported(maven: Maven.MavenWorld, editorConfig: MissingFiles.LegacyMissingFileFix,
                        funding: MissingFiles.LegacyMissingFileFix, license: MissingFiles.LegacyMissingFileFix,
                        readme: MissingFiles.LegacyMissingFileFix, images: SingleFileFix)
    ensures AllReported(InOrder(maven, editorConfig, funding, license, readme, images))
  {
    var rules := InOrder(maven, editorConfig, funding, license, readme, images);
    forall k, t | 0 <= k < |rules| ensures Reported(t, rules[k](t)) {
      if k == 0 {
        Maven.MavenLaw(maven, t);
      } else if k == 1 {
        MissingFiles.LegacyLaw(editorConfig, t);
      } else if k == 2 {
        MissingFiles.LegacyLaw(funding, t);
      } else if k == 3 {
        MissingFiles.LegacyLaw(license, t);
      } else if k == 4 {
        MissingFiles.LegacyLaw(readme, t);
      } else {
        SingleFileLaw(images, t);
      }
    }
  }

  /** ... so the whole run does: from a clean checkout, one commit per
      reported change, in order. */
  lemma RegistryReported(maven: Maven.MavenWorld, repo: RepoInfo, year: nat, userName: string, s: WorkTree)
    ensures Reported(s, RunAll(Registry(maven, repo, year, userName), s))
  {
    InOrderReported(maven, MissingFiles.LegacyEditorConfigFix(), MissingFiles.LegacyFundingFix(),
      MissingFiles.LegacyLicenseFix(repo, Templates.LicenseContents(year, userName)), MissingFiles.LegacyReadmeFix(repo),
      Readme.ReadmeImageFix());
    RunAllReported(Registry(maven, repo, year, userName), s);
  }

  // ---------------------------------------------------------------------
  // `process`, as a function of the starting state.

  /** What processing one repository did: the exception it ended with, if
      any, the working copy, the requests sent to GitHub, the warnings
      logged. */
  datatype Processed = Processed(err: Option<string>, after: WorkTree, calls: seq<ApiCall>, warnings: seq<string>)

  function PullRequestFor(repo: RepoInfo, changes: seq<string>): PullRequest
  {
    PullRequest(repo.fullName, BranchName, repo.defaultBranch, PullTitle, Body(changes))
  }

  /** `create_merge_request`: nothing in a dry run; otherwise push the work
      branch, then open the pull request. */
  function MergeRequestEffect(s: WorkTree, repo: RepoInfo, readWrite: bool, dryRun: bool, changes: seq<string>): (Option<string>, WorkTree, seq<ApiCall>)
  {
    if dryRun then (None, s, [])
    else
      match Push(s)
      case Err(e) => (Some(e), s, [])
      case Ok(t) => (None, t, Sent(readWrite, CreatePull(PullRequestFor(repo, changes))))
  }

  /** `process` after the rules ran and returned `changes`. */
  function Reconcile(s: WorkTree, repo: RepoInfo, readWrite: bool, dryRun: bool, changes: seq<string>, calls: seq<ApiCall>): Processed
  {
    match HasChanges(s, repo.defaultBranch)
    case Err(e) => Processed(Some(e), s, calls, [])
    case Ok(has) =>
      var w := Warnings(has, changes);
      if !has then Processed(None, s, calls, w)
      else
        var (err, t, pr) := MergeRequestEffect(s, repo, readWrite, dryRun, changes);
        Processed(err, t, calls + pr, w)
  }

  /** The requests sent before the comparison come first in the result. */
  lemma ReconcileCalls(s: WorkTree, repo: RepoInfo, readWrite: bool, dryRun: bool, changes: seq<string>, calls: seq<ApiCall>)
    ensures var p := Reconcile(s, repo, readWrite, dryRun, changes, []);
      Reconcile(s, repo, readWrite, dryRun, changes, calls) == p.(calls := calls + p.calls)
  {
  }

  /** The reconciliation table: when the two branches agree nothing is
      published, and the warnings say whether the rules disagreed. */
  lemma ReconcileQuiet(s: WorkTree, repo: RepoInfo, readWrite: bool, dryRun: bool, changes: seq<string>, calls: seq<ApiCall>)
    requires HasChanges(s, repo.defaultBranch) == Ok(false)
    ensures var p := Reconcile(s, repo, readWrite, dryRun, changes, calls);
      p.err == None && p.after == s && p.calls == calls && (p.warnings != [] <==> changes != [])
  {
  }

  /** When the work branch moved, a dry run still publishes nothing, and
      warns exactly when the rules reported no change. */
  lemma ReconcileDryRun(s: WorkTree, repo: RepoInfo, readWrite: bool, changes: seq<string>, calls: seq<ApiCall>)
    requires HasChanges(s, repo.defaultBranch) == Ok(true)
    ensures var p := Reconcile(s, repo, readWrite, true, changes, calls);
      p.err == None && p.after == s && p.calls == calls && (p.warnings != [] <==> changes == [])
  {
  }

  /** Otherwise the branch is pushed first and then one pull request is
      opened from the work branch into the default branch, with the
      rendered body. */
  lemma ReconcilePublishes(s: WorkTree, repo: RepoInfo, changes: seq<string>, calls: seq<ApiCall>)
    requires HasChanges(s, repo.defaultBranch) == Ok(true) && s.head in s.branches
    ensures var p := Reconcile(s, repo, true, false, changes, calls);
      && p.err == None
      && p.after == s.(remotes := s.remotes[s.head := HeadHistory(s)])
      && p.calls == calls + [CreatePull(PullRequest(repo.fullName, BranchName, repo.defaultBranch, PullTitle, Body(changes)))]
      && (p.warnings != [] <==> changes == [])
  {
  }

  /** A push that fails ends processing before any pull request. */
  lemma ReconcilePushFails(s: WorkTree, repo: RepoInfo, readWrite: bool, changes: seq<string>, calls: seq<ApiCall>)
    requires HasChanges(s, repo.defaultBranch) == Ok(true) && s.head !in s.branches
    ensures var p := Reconcile(s, repo, readWrite, false, changes, calls);
      p.err.Some? && p.after == s && p.calls == calls
  {
  }

  /** `process` once the work branch is checked out: run the rules, then
      the description rule, then compare with git and publish. */
  function FixEffect(s: WorkTree, rules: seq<Rule>, repo: RepoInfo, readWrite: bool, dryRun: bool): Processed
  {
    var e := RunAll(rules, s);
    if e.outcome.Raised? then Processed(Some(e.outcome.error), e.after, [], [])
    else
      var calls := RepoDescription.DescriptionCalls(readWrite, repo, RepoDescription.ReadmeDescription(e.after));
      Reconcile(e.after, repo, readWrite, dryRun, e.outcome.changes, calls)
  }

  /** `process`: prepare the work branch, then the rest. */
  function ProcessEffect(s: WorkTree, rules: seq<Rule>, repo: RepoInfo, readWrite: bool, dryRun: bool): Processed
  {
    match PrepareStep(s)
    case Err(e) => Processed(Some(e), s, [], [])
    case Ok(s1) => FixEffect(s1, rules, repo, readWrite, dryRun)
  }

  // ---------------------------------------------------------------------
  // The driver object.

  class RepoProcessor {
    const repo: RepoInfo
    const github: GitHubClient
    const git: GitWorkingDir
    const dryRun: bool
    const rules: seq<Rule>
    var warnings: seq<string>

    /** The rule values are the caller's: `Registry` says which ones
        `run_fixes` builds for the repository. */
    constructor (repo: RepoInfo, github: GitHubClient, git: GitWorkingDir, dryRun: bool, maven: Maven.MavenWorld,
                 editorConfig: MissingFiles.LegacyMissingFileFix, funding: MissingFiles.LegacyMissingFileFix,
                 license: MissingFiles.LegacyMissingFileFix, readme: MissingFiles.LegacyMissingFileFix,
                 images: SingleFileFix)
      ensures this.repo == repo && this.github == github && this.git == git && this.dryRun == dryRun
      ensures warnings == []
      ensures rules == InOrder(maven, editorConfig, funding, license, readme, images)
    {
      this.repo := repo;
      this.github := github;
      this.git := git;
      this.dryRun := dryRun;
      this.rules := InOrder(maven, editorConfig, funding, license, readme, images);
      warnings := [];
    }

    method Prepare() returns (err: Option<string>)
      modifies git
      ensures PrepareStep(old(git.State())).Ok? ==> err == None && git.State() == PrepareStep(old(git.State())).value
      ensures PrepareStep(old(git.State())).Err? ==> err == Some(PrepareStep(old(git.State())).error) && git.State() == old(git.State())
    {
      var s := git.State();
      if RevParse(s, RemotePrefix + BranchName).Ok? {
        err := git.Apply(CheckoutBranch(s, BranchName));
      } else {
        err := git.Apply(CreateBranch(s, BranchName));
      }
    }

    /** `run_fixes`: the registered rules, then the description rule. */
    method RunFixes() returns (o: Outcome)
      modifies git, github
      ensures var e := RunAll(rules, old(git.State()));
        && o == e.outcome && git.State() == e.after
        && github.calls == old(github.calls) +
             (if e.outcome.Done? then RepoDescription.DescriptionCalls(github.readWrite, repo, RepoDescription.ReadmeDescription(e.after)) else [])
    {
      o := Composite.Run(rules, git);
      if o.Done? {
        var more := RepoDescription.Run(github, git, repo);
        o := Done(o.changes + more);
      }
    }

    method HasChangesNow() returns (r: Result<bool>)
      ensures r == HasChanges(git.State(), repo.defaultBranch)
    {
      var s := git.State();
      var current := RevParse(s, BranchName);
      if current.Err? {
        return Err(current.error);
      }
      var main := RevParse(s, repo.defaultBranch);
      if main.Err? {
        return Err(main.error);
      }
      r := Ok(current.value != main.value);
    }

    method CreateMergeRequest(changes: seq<string>) returns (err: Option<string>)
      modifies git, github
      ensures var (e, t, pr) := MergeRequestEffect(old(git.State()), repo, github.readWrite, dryRun, changes);
        err == e && git.State() == t && github.calls == old(github.calls) + pr
    {
      if dryRun {
        return None;
      }
      err := git.Apply(Push(git.State()));
      if err.Some? {
        return;
      }
      var body := FormatBody(changes);
      github.CreateMergeRequest(repo.fullName, BranchName, repo.defaultBranch, PullTitle, body);
    }

    /** `process`. */
    method Process() returns (err: Option<string>)
      modifies this, git, github
      ensures var p := ProcessEffect(old(git.State()), rules, repo, github.readWrite, dryRun);
        && err == p.err && git.State() == p.after
        && github.calls == old(github.calls) + p.calls
        && warnings == old(warnings) + p.warnings
    {
      err := Prepare();
      if err.Some? {
        return;
      }
      err := FixAndPublish();
    }

    /** `process` after `prepare`. */
    method FixAndPublish() returns (err: Option<string>)
      modifies this, git, github
      ensures var p := FixEffect(old(git.State()), rules, repo, github.readWrite, dryRun);
        && err == p.err && git.State() == p.after
        && github.calls == old(github.calls) + p.calls
        && warnings == old(warnings) + p.warnings
    {
      ghost var s1 := git.State();
      ghost var w0 := warnings;
      ghost var calls0 := github.calls;
      var o := RunFixes();
      ghost var e := RunAll(rules, s1);
      if o.Raised? {
        assert warnings == w0;
        return Some(o.error);
      }
      var changes := o.changes;
      ghost var calls := RepoDescription.DescriptionCalls(github.readWrite, repo, RepoDescription.ReadmeDescription(e.after));
      assert FixEffect(s1, rules, repo, github.readWrite, dryRun) ==
        Reconcile(e.after, repo, github.readWrite, dryRun, changes, calls);
      ghost var s2 := git.State();
      assert github.calls == calls0 + calls;
      ReconcileCalls(s2, repo, github.readWrite, dryRun, changes, calls);
      ghost var q := Reconcile(s2, repo, github.readWrite, dryRun, changes, []);
      assert warnings == w0;
      err := Publish(changes);
      Assoc(calls0, calls, q.calls);
    }

    /** The end of `process`, once the rules ran: compare with git, warn,
        publish. */
    method Publish(changes: seq<string>) returns (err: Option<string>)
      modifies this, git, github
      ensures var p := Reconcile(old(git.State()), repo, github.readWrite, dryRun, changes, []);
        && err == p.err && git.State() == p.after
        && github.calls == old(github.calls) + p.calls
        && warnings == old(warnings) + p.warnings
    {
      err := None;
      var has := HasChangesNow();
      if has.Err? {
        return Some(has.error);
      }
      if has.value {
        if changes == [] {
          warnings := warnings + [GitOnlyWarning, BugWarning];
        }
        err := CreateMergeRequest(changes);
      } else {
        if changes != [] {
          warnings := warnings + [RulesOnlyWarning] + changes + [BugWarning];
        }
      }
    }
  }
}
