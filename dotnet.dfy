/**
  The .NET rule: a repository whose root holds exactly one `.sln` file that
  names at least one C# project gets a GitHub Actions workflow, and loses
  its `appveyor.yml`.  The solution file is read through its tokens; the
  tokenizer is an input of the rule.
 */
module Dotnet {
  import opened Wrappers
  import opened Text
  import opened Git
  import opened Templates
  import opened FixersBase

  // ---------------------------------------------------------------------
  // Reading the projects of a solution file from its tokens.

  /** The two project-type GUIDs of C# projects. */
  const CSharpProjectGuids: seq<string> := [
    "{FAE04EC0-301F-11D3-BF4B-00C04F79EFBC}",
    "{9A19103F-16F7-4668-BE54-9A1E7A4F7556}"]

  /** Python's `s[1:-1]`: the text between the quotes. */
  function Inner(s: string): (r: string)
    ensures |s| >= 2 ==> r == s[1..|s| - 1]
    ensures |s| < 2 ==> r == ""
  {
    if |s| >= 2 then s[1..|s| - 1] else ""
  }

  /** One call of the tokenizer: the next token, or the empty (false) token
      once the input is used up. */
  function NextToken(ts: seq<string>): (r: (string, seq<string>))
    ensures ts == [] ==> r == ("", [])
    ensures ts != [] ==> r == (ts[0], ts[1..])
  {
    if ts == [] then ("", []) else (ts[0], ts[1..])
  }

  /** `SlnParser.find`: the first token equal to `needle`, or the first
      false token, with what is left after it. */
  function FindToken(needle: string, ts: seq<string>): (r: (string, seq<string>))
    ensures r.0 == "" || r.0 == needle
    ensures |r.1| <= |ts|
    ensures r.0 != "" ==> |r.1| < |ts|
    decreases |ts|
  {
    var t := NextToken(ts);
    if t.0 == "" || t.0 == needle then t else FindToken(needle, t.1)
  }

  /** `SlnProjectFinder._read_project_path`, after the `Project` token: the
      path of a C# project entry `( "{guid}" ) = "name" , "path"`, without
      its quotes, or nothing as soon as a token does not fit. */
  function ProjectPath(ts: seq<string>): (r: (Option<string>, seq<string>))
    ensures |r.1| <= |ts|
  {
    var lparen := NextToken(ts);
    if lparen.0 != "(" then (None, lparen.1)
    else
      var guid := NextToken(lparen.1);
      if Inner(guid.0) !in CSharpProjectGuids then (None, guid.1)
      else
        var rparen := NextToken(guid.1);
        if rparen.0 != ")" then (None, rparen.1)
        else
          var eq := NextToken(rparen.1);
          if eq.0 != "=" then (None, eq.1)
          else
            var name := NextToken(eq.1);
            var comma := NextToken(name.1);
            if comma.0 != "," then (None, comma.1)
            else
              var path := NextToken(comma.1);
              (Some(Inner(path.0)), path.1)
  }

  /** `SlnProjectFinder.next`: the next project path that is not empty. */
  function NextProject(ts: seq<string>): (r: (Option<string>, seq<string>))
    ensures |r.1| <= |ts|
    ensures r.0.Some? ==> r.0.value != "" && |r.1| < |ts|
    decreases |ts|
  {
    var found := FindToken("Project", ts);
    if found.0 == "" then (None, found.1)
    else
      var path := ProjectPath(found.1);
      if path.0.Some? && path.0.value != "" then path
      else NextProject(path.1)
  }

  /** `list(SlnProjectFinder(contents))`: the project paths, in file order. */
  function Projects(ts: seq<string>): (ps: seq<string>)
    ensures forall k :: 0 <= k < |ps| ==> ps[k] != ""
    decreases |ts|
  {
    var next := NextProject(ts);
    if next.0.None? then [] else [next.0.value] + Projects(next.1)
  }

  /** The tokens of one C# project entry of a solution file. */
  function ProjectEntry(guid: string, name: string, path: string): seq<string>
  {
    ["Project", "(", guid, ")", "=", name, ",", path]
  }

  /** `find` skips every token before the first match, when none of them is
      the false token. */
  lemma {:induction false} FindTokenFirst(needle: string, ts: seq<string>, k: nat)
    requires needle != "" && k < |ts| && ts[k] == needle
    requires forall j :: 0 <= j < k ==> ts[j] != "" && ts[j] != needle
    ensures FindToken(needle, ts) == (needle, ts[k + 1..])
    decreases k
  {
    if k > 0 {
      FindTokenFirst(needle, ts[1..], k - 1);
      assert ts[1..][k..] == ts[k + 1..];
    }
  }

  /** Without the needle, `find` ends on a false token. */
  lemma {:induction false} FindTokenAbsent(needle: string, ts: seq<string>)
    requires forall j :: 0 <= j < |ts| ==> ts[j] != needle
    ensures FindToken(needle, ts).0 == ""
    decreases |ts|
  {
    if ts != [] && ts[0] != "" {
      FindTokenAbsent(needle, ts[1..]);
    }
  }

  /** A token stream without a `Project` token names no project. */
  lemma NoProjectToken(ts: seq<string>)
    requires forall j :: 0 <= j < |ts| ==> ts[j] != "Project"
    ensures Projects(ts) == []
  {
    FindTokenAbsent("Project", ts);
  }

  /** A well-formed C# project entry yields its unquoted path, and reading
      goes on right after it. */
  lemma ProjectEntryRead(guid: string, name: string, path: string, rest: seq<string>)
    requires Inner(guid) in CSharpProjectGuids && Inner(path) != ""
    ensures Projects(ProjectEntry(guid, name, path) + rest) == [Inner(path)] + Projects(rest)
  {
    var ts := ProjectEntry(guid, name, path) + rest;
    assert ts[1..] == ["(", guid, ")", "=", name, ",", path] + rest;
    FindTokenFirst("Project", ts, 0);
    var r := ts[1..];
    assert r[1..][1..][1..][1..][1..][1..][1..] == rest;
  }

  /** An entry whose type GUID is not a C# one is skipped: reading resumes
      right after the GUID. */
  lemma OtherProjectSkipped(guid: string, rest: seq<string>)
    requires Inner(guid) !in CSharpProjectGuids
    ensures Projects(["Project", "(", guid] + rest) == Projects(rest)
  {
    var ts := ["Project", "(", guid] + rest;
    FindTokenFirst("Project", ts, 0);
    assert ts[1..] == ["(", guid] + rest;
    assert ts[1..][1..][1..] == rest;
  }

  /** `SlnParser`: the tokens not read yet. */
  class SlnParser {
    var tokens: seq<string>

    constructor (tokens: seq<string>)
      ensures this.tokens == tokens
    {
      this.tokens := tokens;
    }

    method Next() returns (t: string)
      modifies this
      ensures (t, tokens) == NextToken(old(tokens))
    {
      if tokens == [] {
        t := "";
      } else {
        t := tokens[0];
        tokens := tokens[1..];
      }
    }

    method Find(needle: string) returns (t: string)
      modifies this
      ensures (t, tokens) == FindToken(needle, old(tokens))
    {
      t := Next();
      while t != "" && t != needle
        invariant FindToken(needle, old(tokens)) == (if t == "" || t == needle then (t, tokens) else FindToken(needle, tokens))
        decreases |tokens| + (if t == "" then 0 else 1)
      {
        t := Next();
      }
    }
  }

  /** `SlnProjectFinder`: project paths read from a parser. */
  class SlnProjectFinder {
    const parser: SlnParser

    constructor (parser: SlnParser)
      ensures this.parser == parser
    {
      this.parser := parser;
    }

    method ReadProjectPath() returns (path: Option<string>)
      modifies parser
      ensures (path, parser.tokens) == ProjectPath(old(parser.tokens))
    {
      var lparen := parser.Next();
      if lparen != "(" {
        return None;
      }
      var guid := parser.Next();
      if Inner(guid) !in CSharpProjectGuids {
        return None;
      }
      var rparen := parser.Next();
      if rparen != ")" {
        return None;
      }
      var eq := parser.Next();
      if eq != "=" {
        return None;
      }
      var name := parser.Next();
      var comma := parser.Next();
      if comma != "," {
        return None;
      }
      var csprojPath := parser.Next();
      return Some(Inner(csprojPath));
    }

    method Next() returns (path: Option<string>)
      modifies parser
      ensures (path, parser.tokens) == NextProject(old(parser.tokens))
    {
      while true
        invariant NextProject(old(parser.tokens)) == NextProject(parser.tokens)
        decreases |parser.tokens|
      {
        var found := parser.Find("Project");
        if found == "" {
          return None;
        }
        path := ReadProjectPath();
        if path.Some? && path.value != "" {
          return;
        }
      }
    }

    /** Iterating the finder to the end, as `list(...)` does. */
    method All() returns (ps: seq<string>)
      modifies parser
      ensures ps == Projects(old(parser.tokens))
    {
      ps := [];
      var path := Next();
      while path.Some?
        invariant Projects(old(parser.tokens)) == ps + (if path.Some? then [path.value] + Projects(parser.tokens) else [])
        decreases |parser.tokens|, path.Some?
      {
        ps := ps + [path.value];
        ghost var before := parser.tokens;
        path := Next();
        assert Projects(before) == (if path.Some? then [path.value] + Projects(parser.tokens) else []);
      }
    }
  }

  /** `get_projects_from_sln_file`, on the tokens of the file. */
  method ProjectsFromSln(tokens: seq<string>) returns (ps: seq<string>)
    ensures ps == Projects(tokens)
  {
    var parser := new SlnParser(tokens);
    var finder := new SlnProjectFinder(parser);
    ps := finder.All();
  }

  // ---------------------------------------------------------------------
  // Which repositories the rule processes.

  /** `is_file_of_extension(entry, ".sln")`. */
  predicate IsSolution(e: DirEntry)
  {
    e.isFile && EndsWith(e.name, ".sln")
  }

  /** The solution files among the entries, in order. */
  function Solutions(es: seq<DirEntry>): (r: seq<DirEntry>)
    ensures |r| <= |es|
    ensures forall k :: 0 <= k < |r| ==> IsSolution(r[k]) && r[k] in es
  {
    if es == [] then []
    else Solutions(es[..|es| - 1]) + (if IsSolution(es[|es| - 1]) then [es[|es| - 1]] else [])
  }

  lemma {:induction false} SolutionsGrow(es: seq<DirEntry>, i: nat)
    requires i <= |es|
    ensures |Solutions(es[..i])| <= |Solutions(es)|
    decreases |es| - i
  {
    if i < |es| {
      SolutionsGrow(es, i + 1);
      assert es[..i + 1][..i] == es[..i];
    } else {
      assert es[..i] == es;
    }
  }

  /** The loop of `_should_process_repo` over the root entries: the name of
      the only solution file, or nothing when there is none or more than one. */
  method SingleSolution(es: seq<DirEntry>) returns (sln: Option<string>)
    ensures sln.Some? <==> |Solutions(es)| == 1
    ensures sln.Some? ==> sln.value == Solutions(es)[0].name
  {
    var name := "";
    var found := false;
    for i := 0 to |es|
      invariant found <==> |Solutions(es[..i])| == 1
      invariant |Solutions(es[..i])| <= 1
      invariant found ==> Solutions(es[..i])[0].name == name
    {
      assert es[..i + 1][..i] == es[..i];
      if IsSolution(es[i]) {
        if found {
          SolutionsGrow(es, i + 1);
          return None;
        }
        name := es[i].name;
        found := true;
      }
    }
    assert es[..|es|] == es;
    if !found {
      return None;
    }
    return Some(name);
  }

  /** `_should_process_repo`: exactly one solution file at the root, and it
      names at least one C# project. */
  predicate ShouldProcess(s: WorkTree, tokenize: string -> seq<string>)
  {
    var slns := Solutions(RootEntries(s));
    |slns| == 1 && |Projects(tokenize(s.files[slns[0].name]))| > 0
  }

  // ---------------------------------------------------------------------
  // The rule.

  const WorkflowDir: seq<string> := [".github", "workflows"]
  const BuildYml: Path := ".github/workflows/build.yml"
  const AppveyorYml: Path := "appveyor.yml"
  const UpdatedMessage: string := "chore: Updated GitHub Actions workflow for .NET project"
  const AddedMessage: string := "chore: Added GitHub Actions workflow for .NET project"
  const RemovedMessage: string := "chore: Removed appveyor.yml from .NET project"

  /** `get_workflow_contents`: the workflow with every `trunk` replaced by
      the default branch. */
  function WorkflowContents(defaultBranch: string): string
  {
    Replace(DotnetWorkflow, "trunk", defaultBranch)
  }

  /** A repository whose default branch is `trunk` gets the template as it stands. */
  lemma WorkflowForTrunk()
    ensures WorkflowContents("trunk") == DotnetWorkflow
  {
    ReplaceBySelf(DotnetWorkflow, "trunk");
  }

  /** `_rm_appveyor`: whether `appveyor.yml` was there, and the state after
      `git rm`. */
  function RemoveAppveyor(s: WorkTree): (r: Result<(bool, WorkTree)>)
    ensures r.Ok? && r.value.0 ==> IsFile(s, AppveyorYml) && Rm(s, AppveyorYml) == Ok(r.value.1)
    ensures r.Ok? && !r.value.0 ==> !IsFile(s, AppveyorYml) && r.value.1 == s
    ensures r.Err? ==> IsFile(s, AppveyorYml) && Rm(s, AppveyorYml).Err?
  {
    if IsFile(s, AppveyorYml) then
      match Rm(s, AppveyorYml)
      case Err(e) => Err(e)
      case Ok(t) => Ok((true, t))
    else Ok((false, s))
  }

  /** The workflow file's contents, or `""` when there is none. */
  function OldWorkflow(s: WorkTree): string
  {
    if IsFile(s, BuildYml) then s.files[BuildYml] else ""
  }

  /** Commit the removal of `appveyor.yml` when it is there; the tail of
      the rule when the workflow is already up to date. */
  function AppveyorStep(s: WorkTree): Effect
  {
    match RemoveAppveyor(s)
    case Err(err) => Effect(Raised(err), s)
    case Ok(r) => if r.0 then CommitChange(r.1, RemovedMessage) else Effect(Done([]), s)
  }

  /** `_rm_appveyor`, on the working copy. */
  method RmAppveyor(g: GitWorkingDir) returns (removed: bool, err: Option<string>)
    modifies g
    ensures var r := RemoveAppveyor(old(g.State()));
      && (r.Ok? ==> err.None? && removed == r.value.0 && g.State() == r.value.1)
      && (r.Err? ==> err == Some(r.error) && g.State() == old(g.State()))
  {
    removed := false;
    var existing := g.ReadFile(AppveyorYml);
    if existing.None? {
      return false, None;
    }
    err := g.Remove(AppveyorYml);
    removed := true;
  }

  method RunAppveyorStep(g: GitWorkingDir) returns (o: Outcome)
    modifies g
    ensures Effect(o, g.State()) == AppveyorStep(old(g.State()))
  {
    var removed, err := RmAppveyor(g);
    if err.Some? {
      return Raised(err.value);
    }
    if removed {
      err := g.CommitAll(RemovedMessage);
      if err.Some? {
        return Raised(err.value);
      }
      return Done([RemovedMessage]);
    }
    return Done([]);
  }

  /** `MustHaveGitHubActionFix`; `workflow` is the expected workflow
      (`WorkflowContents` of the default branch). */
  datatype MustHaveGitHubActionFix = MustHaveGitHubActionFix(workflow: string, tokenize: string -> seq<string>)
  {
    function Step(s: WorkTree): Effect
    {
      if !ShouldProcess(s, tokenize) then Effect(Done([]), s)
      else
        ProcessStep(s)
    }

    /** The rule on a repository it processes: create `.github/workflows`,
        then update. */
    function ProcessStep(s: WorkTree): Effect
    {
      var e := EnsureDirs(s, WorkflowDir, 0);
      if e.outcome.Raised? then e else UpdateStep(e.after)
    }

    /** What the rule does once `.github/workflows` exists. */
    function UpdateStep(s: WorkTree): Effect
    {
      var previous := OldWorkflow(s);
      if workflow != previous then WriteStep(s, if previous != "" then UpdatedMessage else AddedMessage)
      else AppveyorStep(s)
    }

    /** Write and stage the workflow, drop `appveyor.yml`, commit `msg`. */
    function WriteStep(s: WorkTree, msg: string): Effect
    {
      match WriteFile(s, BuildYml, workflow)
      case Err(err) => Effect(Raised(err), s)
      case Ok(s1) =>
        match Add(s1, BuildYml)
        case Err(err) => Effect(Raised(err), s1)
        case Ok(s2) =>
          match RemoveAppveyor(s2)
          case Err(err) => Effect(Raised(err), s2)
          case Ok(r) => CommitChange(r.1, msg)
    }

    method ShouldProcessRepo(g: GitWorkingDir) returns (b: bool)
      ensures b == ShouldProcess(g.State(), tokenize)
    {
      var sln := SingleSolution(RootEntries(g.State()));
      if sln.None? {
        return false;
      }
      assert sln.value in g.files by {
        var es := RootEntries(g.State());
        assert Solutions(es)[0] in es;
      }
      var contents := g.ReadFile(sln.value);
      var projects := ProjectsFromSln(tokenize(contents.value));
      return |projects| > 0;
    }

    method RunWriteStep(g: GitWorkingDir, msg: string) returns (o: Outcome)
      modifies g
      ensures Effect(o, g.State()) == WriteStep(old(g.State()), msg)
    {
      var err := g.Write(BuildYml, workflow);
      if err.Some? {
        return Raised(err.value);
      }
      err := g.Stage(BuildYml);
      var removed;
      removed, err := RmAppveyor(g);
      if err.Some? {
        return Raised(err.value);
      }
      err := g.CommitAll(msg);
      if err.Some? {
        return Raised(err.value);
      }
      return Done([msg]);
    }

    method RunProcessStep(g: GitWorkingDir) returns (o: Outcome)
      modifies g
      ensures Effect(o, g.State()) == ProcessStep(old(g.State()))
    {
      var err := EnsureDirectories(g, WorkflowDir);
      if err.Some? {
        return Raised(err.value);
      }
      var existing := g.ReadFile(BuildYml);
      var previous := if existing.Some? then existing.value else "";
      if workflow != previous {
        var msg := if previous != "" then UpdatedMessage else AddedMessage;
        o := RunWriteStep(g, msg);
      } else {
        o := RunAppveyorStep(g);
      }
    }

    method Run(g: GitWorkingDir) returns (o: Outcome)
      modifies g
      ensures Effect(o, g.State()) == Step(old(g.State()))
    {
      var process := ShouldProcessRepo(g);
      if !process {
        return Done([]);
      }
      o := RunProcessStep(g);
    }
  }

  /** The rule as built for a repository's default branch. */
  function NewMustHaveGitHubActionFix(defaultBranch: string, tokenize: string -> seq<string>): (r: MustHaveGitHubActionFix)
    ensures r.workflow == WorkflowContents(defaultBranch) && r.tokenize == tokenize
  {
    MustHaveGitHubActionFix(WorkflowContents(defaultBranch), tokenize)
  }

  /** Where the workflow goes: `.github`, then `.github/workflows`, then the
      file itself, which is neither of those directories nor `appveyor.yml`. */
  lemma WorkflowPrefixes()
    ensures ValidSegments(WorkflowDir)
    ensures DirPrefix(WorkflowDir, 1) == ".github"
    ensures DirPrefix(WorkflowDir, 2) == ".github/workflows"
  {
    assert PlainSegment(".github") && PlainSegment("workflows");
    PlainName(".github");
    PlainDirName(".github", "workflows");
    assert WorkflowDir[..1] == [] + [".github"];
    assert WorkflowDir[..2] == [".github"] + ["workflows"];
  }

  lemma WorkflowParent()
    ensures BuildYml == ".github/workflows" + "/" + "build.yml"
    ensures Parent(BuildYml) == ".github/workflows"
  {
    assert BuildYml == ".github/workflows" + "/" + "build.yml";
    assert '/' !in "build.yml";
    ParentOfLast(".github/workflows", "build.yml");
  }

  lemma WorkflowLayout()
    ensures ValidSegments(WorkflowDir)
    ensures DirPrefix(WorkflowDir, 1) == ".github"
    ensures DirPrefix(WorkflowDir, 2) == ".github/workflows"
    ensures Parent(BuildYml) == DirPrefix(WorkflowDir, |WorkflowDir|)
    ensures forall j :: 1 <= j <= |WorkflowDir| ==> DirPrefix(WorkflowDir, j) != BuildYml
  {
    WorkflowPrefixes();
    WorkflowParent();
    assert |BuildYml| != |".github"|;
    assert |BuildYml| != |".github/workflows"|;
  }

  /** The workflow and `appveyor.yml` are different files. */
  lemma WorkflowIsNotAppveyor()
    ensures BuildYml != AppveyorYml
  {
    assert |BuildYml| != |AppveyorYml|;
  }

  /** Creating directories does not change what is reported: a state that
      differs from `s` only in its directories reports as `s` does. */
  lemma ReportedOverDirs(s: WorkTree, dirs: set<Path>, e: Effect)
    requires Reported(s.(dirs := dirs), e)
    ensures Reported(s, e)
  {
    var s1 := s.(dirs := dirs);
    assert HeadHistory(s1) == HeadHistory(s);
  }

  /** Removing `appveyor.yml` and committing reports exactly the removal. */
  lemma AppveyorLaw(s: WorkTree)
    ensures Reported(s, AppveyorStep(s))
    ensures AppveyorStep(s).outcome.Done? ==> AppveyorStep(s).outcome.changes in {[], [RemovedMessage]}
    ensures AppveyorStep(s).outcome == Done([]) ==> AppveyorStep(s).after == s && !IsFile(s, AppveyorYml)
    ensures AppveyorStep(s).outcome.Done? ==> AppveyorStep(s).after.files == s.files - {AppveyorYml}
    ensures Clean(s) ==> AppveyorStep(s).outcome == (if IsFile(s, AppveyorYml) then Done([RemovedMessage]) else Done([]))
  {
    NothingReported(s);
    match RemoveAppveyor(s)
    case Err(_) =>
    case Ok(r) =>
      if r.0 {
        var t := r.1;
        assert HeadHistory(t) == HeadHistory(s);
        if Clean(s) {
          CommitChangeReported(t, RemovedMessage);
          assert AppveyorYml in HeadTree(t) && AppveyorYml !in t.index;
        }
      } else {
        assert s.files - {AppveyorYml} == s.files;
      }
  }

  /** The state `WriteStep` commits: the workflow written and staged, and
      `appveyor.yml` removed when it was there. */
  lemma WriteStaged(fix: MustHaveGitHubActionFix, s: WorkTree, msg: string)
    requires BuildYml !in s.dirs && IsDir(s, Parent(BuildYml))
    requires !IsFile(s, AppveyorYml) || Rm(s, AppveyorYml).Ok?
    ensures var t := s.(files := s.files[BuildYml := fix.workflow] - {AppveyorYml},
                        index := if IsFile(s, AppveyorYml) then s.index[BuildYml := fix.workflow] - {AppveyorYml}
                                 else s.index[BuildYml := fix.workflow]);
      fix.WriteStep(s, msg) == CommitChange(t, msg)
  {
    WorkflowIsNotAppveyor();
    var s2 := s.(files := s.files[BuildYml := fix.workflow], index := s.index[BuildYml := fix.workflow]);
    assert WriteFile(s, BuildYml, fix.workflow) == Ok(s.(files := s.files[BuildYml := fix.workflow]));
    assert Add(s.(files := s.files[BuildYml := fix.workflow]), BuildYml) == Ok(s2);
    if IsFile(s, AppveyorYml) {
      assert HeadTree(s2) == HeadTree(s);
      assert RemoveAppveyor(s2) == Ok((true, s2.(files := s2.files - {AppveyorYml}, index := s2.index - {AppveyorYml})));
    } else {
      assert s2.files - {AppveyorYml} == s2.files;
      assert RemoveAppveyor(s2) == Ok((false, s2));
    }
  }

  /** Writing the workflow reports exactly `msg` and leaves the new
      workflow in place and no `appveyor.yml`; from a clean checkout it
      keeps the reporting contract. */
  lemma WriteLaw(fix: MustHaveGitHubActionFix, s: WorkTree, msg: string)
    ensures Reported(s, fix.WriteStep(s, msg))
    ensures fix.WriteStep(s, msg).outcome.Done? ==> fix.WriteStep(s, msg).outcome == Done([msg])
    ensures fix.WriteStep(s, msg).outcome.Done? ==>
      fix.WriteStep(s, msg).after.files == s.files[BuildYml := fix.workflow] - {AppveyorYml}
      && fix.WriteStep(s, msg).after.dirs == s.dirs
  {
    if fix.WriteStep(s, msg).outcome.Done? {
      WriteStaged(fix, s, msg);
      var t := s.(files := s.files[BuildYml := fix.workflow] - {AppveyorYml},
                  index := if IsFile(s, AppveyorYml) then s.index[BuildYml := fix.workflow] - {AppveyorYml}
                           else s.index[BuildYml := fix.workflow]);
      assert HeadHistory(t) == HeadHistory(s);
      if Clean(s) {
        assert t.files == t.index;
        CommitChangeReported(t, msg);
      }
    }
  }

  /** From a clean checkout, writing a workflow that differs from the one
      there always succeeds. */
  lemma WriteSucceeds(fix: MustHaveGitHubActionFix, s: WorkTree, msg: string)
    requires Clean(s) && BuildYml !in s.dirs && IsDir(s, Parent(BuildYml)) && OldWorkflow(s) != fix.workflow
    ensures fix.WriteStep(s, msg).outcome == Done([msg])
  {
    WriteStaged(fix, s, msg);
    WorkflowIsNotAppveyor();
    var t := s.(files := s.files[BuildYml := fix.workflow] - {AppveyorYml},
                index := if IsFile(s, AppveyorYml) then s.index[BuildYml := fix.workflow] - {AppveyorYml}
                         else s.index[BuildYml := fix.workflow]);
    assert HeadTree(t) == HeadTree(s);
    assert t.index[BuildYml] == fix.workflow;
  }

  /** Once the directories exist, the rule keeps the reporting contract and
      reports at most one of its three messages. */
  lemma UpdateLaw(fix: MustHaveGitHubActionFix, s: WorkTree)
    ensures Reported(s, fix.UpdateStep(s))
    ensures fix.UpdateStep(s).outcome.Done? ==>
      fix.UpdateStep(s).outcome.changes in {[], [UpdatedMessage], [AddedMessage], [RemovedMessage]}
    ensures fix.UpdateStep(s).outcome == Done([]) ==> fix.UpdateStep(s).after == s
  {
    var previous := OldWorkflow(s);
    if fix.workflow != previous {
      WriteLaw(fix, s, if previous != "" then UpdatedMessage else AddedMessage);
    } else {
      AppveyorLaw(s);
    }
  }

  /** The rule keeps the reporting contract, reports at most one of its three
      messages, and when it reports nothing it has at most created the
      workflow directories. */
  lemma DotnetLaw(fix: MustHaveGitHubActionFix, s: WorkTree)
    ensures Reported(s, fix.Step(s))
    ensures fix.Step(s).outcome.Done? ==>
      fix.Step(s).outcome.changes in {[], [UpdatedMessage], [AddedMessage], [RemovedMessage]}
    ensures fix.Step(s).outcome == Done([]) ==> fix.Step(s).after == s.(dirs := fix.Step(s).after.dirs)
  {
    NothingReported(s);
    if ShouldProcess(s, fix.tokenize) {
      var e := EnsureDirs(s, WorkflowDir, 0);
      EnsureDirsFrame(s, WorkflowDir, 0);
      if e.outcome.Done? {
        UpdateLaw(fix, e.after);
        ReportedOverDirs(s, e.after.dirs, fix.UpdateStep(e.after));
      }
    }
  }

  /** When no prefix of `.github/workflows` is a file and the workflow
      path is not a directory, creating the directories succeeds, touches
      nothing else, and leaves the workflow writable. */
  lemma DirsReady(s: WorkTree)
    requires forall j :: 1 <= j <= |WorkflowDir| ==> DirPrefix(WorkflowDir, j) !in s.files
    requires BuildYml !in s.dirs
    ensures var e := EnsureDirs(s, WorkflowDir, 0);
      && e.outcome == Done([]) && e.after == s.(dirs := e.after.dirs)
      && BuildYml !in e.after.dirs && IsDir(e.after, Parent(BuildYml))
  {
    WorkflowLayout();
    EnsureDirsSucceeds(s, WorkflowDir, 0);
    EnsureDirsFrame(s, WorkflowDir, 0);
    EnsureDirsOnlyPrefixes(s, WorkflowDir, 0);
  }

  /** Once the directories exist on a clean checkout, the rule never raises:
      it writes the workflow when it differs from what is there (reporting
      an update or an addition), else removes `appveyor.yml` when present,
      and in every case leaves no `appveyor.yml` behind. */
  lemma UpdateOutcome(fix: MustHaveGitHubActionFix, s: WorkTree)
    requires Clean(s) && BuildYml !in s.dirs && IsDir(s, Parent(BuildYml))
    ensures var previous := OldWorkflow(s);
      fix.UpdateStep(s).outcome ==
        if fix.workflow != previous then Done([if previous != "" then UpdatedMessage else AddedMessage])
        else if IsFile(s, AppveyorYml) then Done([RemovedMessage])
        else Done([])
    ensures fix.UpdateStep(s).after.files ==
      (if fix.workflow != OldWorkflow(s) then s.files[BuildYml := fix.workflow] else s.files) - {AppveyorYml}
  {
    var previous := OldWorkflow(s);
    if fix.workflow != previous {
      WriteLaw(fix, s, if previous != "" then UpdatedMessage else AddedMessage);
      WriteSucceeds(fix, s, if previous != "" then UpdatedMessage else AddedMessage);
    } else {
      AppveyorLaw(s);
    }
  }

  /** On a clean checkout of a repository the rule processes, where no
      prefix of `.github/workflows` is a file and the workflow path is not a
      directory, the rule behaves as `UpdateOutcome` describes. */
  lemma DotnetOutcome(fix: MustHaveGitHubActionFix, s: WorkTree)
    requires Clean(s) && ShouldProcess(s, fix.tokenize)
    requires forall j :: 1 <= j <= |WorkflowDir| ==> DirPrefix(WorkflowDir, j) !in s.files
    requires BuildYml !in s.dirs
    ensures var previous := OldWorkflow(s);
      fix.Step(s).outcome ==
        if fix.workflow != previous then Done([if previous != "" then UpdatedMessage else AddedMessage])
        else if IsFile(s, AppveyorYml) then Done([RemovedMessage])
        else Done([])
    ensures fix.Step(s).after.files ==
      (if fix.workflow != OldWorkflow(s) then s.files[BuildYml := fix.workflow] else s.files) - {AppveyorYml}
  {
    DirsReady(s);
    var s1 := EnsureDirs(s, WorkflowDir, 0).after;
    OnlyDirsChanged(s, s1);
    UpdateOutcome(fix, s1);
    assert fix.Step(s) == fix.UpdateStep(s1);
  }

  /** A state that differs from `s` only in its directories has the same
      workflow, the same `appveyor.yml` and is as clean as `s`. */
  lemma OnlyDirsChanged(s: WorkTree, t: WorkTree)
    requires t == s.(dirs := t.dirs)
    ensures t.files == s.files && OldWorkflow(t) == OldWorkflow(s)
    ensures IsFile(t, AppveyorYml) == IsFile(s, AppveyorYml)
    ensures Clean(t) == Clean(s)
  {
    assert HeadTree(t) == HeadTree(s);
  }

  /** After a reported change the workflow is up to date and `appveyor.yml`
      is gone; no directory was touched. */
  lemma UpdateLeaves(fix: MustHaveGitHubActionFix, s: WorkTree)
    requires fix.UpdateStep(s).outcome.Done? && fix.UpdateStep(s).outcome.changes != []
    ensures var t := fix.UpdateStep(s).after;
      t.dirs == s.dirs && OldWorkflow(t) == fix.workflow && !IsFile(t, AppveyorYml)
  {
    WorkflowIsNotAppveyor();
    var previous := OldWorkflow(s);
    if fix.workflow != previous {
      WriteLaw(fix, s, if previous != "" then UpdatedMessage else AddedMessage);
    } else {
      AppveyorLaw(s);
    }
  }

  /** With the directories in place, the workflow up to date and no
      `appveyor.yml`, the rule does nothing. */
  lemma UpToDate(fix: MustHaveGitHubActionFix, t: WorkTree)
    requires forall j :: 0 < j <= |WorkflowDir| ==> IsDir(t, DirPrefix(WorkflowDir, j))
    requires OldWorkflow(t) == fix.workflow && !IsFile(t, AppveyorYml)
    ensures fix.Step(t) == Effect(Done([]), t)
  {
    if ShouldProcess(t, fix.tokenize) {
      ProcessUpToDate(fix, t);
    }
  }

  lemma ProcessUpToDate(fix: MustHaveGitHubActionFix, t: WorkTree)
    requires forall j :: 0 < j <= |WorkflowDir| ==> IsDir(t, DirPrefix(WorkflowDir, j))
    requires OldWorkflow(t) == fix.workflow && !IsFile(t, AppveyorYml)
    ensures fix.ProcessStep(t) == Effect(Done([]), t)
  {
    EnsureDirsPresent(t, WorkflowDir, 0);
    AppveyorLaw(t);
  }

  /** After the rule reported a change, running it again is a no-op. */
  lemma DotnetSecondRun(fix: MustHaveGitHubActionFix, s: WorkTree)
    requires fix.Step(s).outcome.Done? && fix.Step(s).outcome.changes != []
    ensures fix.Step(fix.Step(s).after) == Effect(Done([]), fix.Step(s).after)
  {
    assert ShouldProcess(s, fix.tokenize);
    ProcessLeaves(fix, s);
    UpToDate(fix, fix.ProcessStep(s).after);
  }

  /** What a reported change leaves behind: the directories, the workflow
      up to date and no `appveyor.yml`. */
  lemma ProcessLeaves(fix: MustHaveGitHubActionFix, s: WorkTree)
    requires fix.ProcessStep(s).outcome.Done? && fix.ProcessStep(s).outcome.changes != []
    ensures var t := fix.ProcessStep(s).after;
      && (forall j :: 0 < j <= |WorkflowDir| ==> IsDir(t, DirPrefix(WorkflowDir, j)))
      && OldWorkflow(t) == fix.workflow && !IsFile(t, AppveyorYml)
  {
    var e := EnsureDirs(s, WorkflowDir, 0);
    var s1 := e.after;
    UpdateLeaves(fix, s1);
    EnsureDirsReachedAll(s, WorkflowDir, 0);
    SameDirs(s1, fix.UpdateStep(s1).after);
  }

  lemma SameDirs(s: WorkTree, t: WorkTree)
    requires t.dirs == s.dirs
    requires forall j :: 0 < j <= |WorkflowDir| ==> IsDir(s, DirPrefix(WorkflowDir, j))
    ensures forall j :: 0 < j <= |WorkflowDir| ==> IsDir(t, DirPrefix(WorkflowDir, j))
  {
  }
}
