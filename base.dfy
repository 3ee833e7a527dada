/**
  The rule contract every fixer follows, and the two reusable rule shapes:
  a rule that rewrites one existing file, and a rule that creates one
  missing file.  A rule's `run` either returns the list of changes it made
  (each one a commit on the checked-out branch) or raises.
 */
module FixersBase {
  import opened Wrappers
  import opened Text
  import opened Git

  /** What a rule's `run` produced: its list of changes, or an exception. */
  datatype Outcome = Done(changes: seq<string>) | Raised(error: string)

  /** A rule's outcome together with the working copy it left behind. */
  datatype Effect = Effect(outcome: Outcome, after: WorkTree)

  /** Every file sits in an existing directory and is not itself a directory. */
  predicate WellFormed(s: WorkTree)
  {
    forall p :: p in s.files ==> p !in s.dirs && IsDir(s, Parent(p))
  }

  /** The contract between a rule and the driver: starting from a clean
      checkout, a rule that returns normally has made exactly one commit per
      reported change, with that change as the commit message, on the
      checked-out branch only, and leaves the checkout clean. */
  predicate Reported(s: WorkTree, e: Effect)
  {
    Clean(s) && e.outcome.Done? ==> Appended(s, e.after, e.outcome.changes) && Clean(e.after)
  }

  /** Running one rule after another: the second runs only if the first
      returned, and the change lists concatenate. */
  function AndThen(e: Effect, next: WorkTree -> Effect): (r: Effect)
    ensures e.outcome.Raised? ==> r == e
    ensures e.outcome.Done? && next(e.after).outcome.Done? ==>
      r == Effect(Done(e.outcome.changes + next(e.after).outcome.changes), next(e.after).after)
    ensures e.outcome.Done? && next(e.after).outcome.Raised? ==> r == next(e.after)
  {
    if e.outcome.Raised? then e
    else
      var e2 := next(e.after);
      if e2.outcome.Raised? then e2 else Effect(Done(e.outcome.changes + e2.outcome.changes), e2.after)
  }

  lemma AndThenReported(s: WorkTree, e: WorkTree -> Effect, next: WorkTree -> Effect)
    requires Reported(s, e(s))
    requires Clean(s) && e(s).outcome.Done? ==> Reported(e(s).after, next(e(s).after))
    ensures Reported(s, AndThen(e(s), next))
  {
    var e1 := e(s);
    if Clean(s) && e1.outcome.Done? {
      var e2 := next(e1.after);
      if e2.outcome.Done? {
        AppendedTrans(s, e1.after, e2.after, e1.outcome.changes, e2.outcome.changes);
      }
    }
  }

  lemma NothingReported(s: WorkTree)
    ensures Reported(s, Effect(Done([]), s))
  {
    if Clean(s) {
      AppendedNothing(s);
    }
  }

  /** `git commit -m msg`, reporting `msg` as the one change. */
  function CommitChange(s: WorkTree, msg: string): Effect
  {
    match CommitIndex(s, msg)
    case Err(e) => Effect(Raised(e), s)
    case Ok(t) => Effect(Done([msg]), t)
  }

  /** Write a file, stage it and commit it: the tail of every file-creating rule. */
  function WriteAddCommit(s: WorkTree, p: Path, text: string, msg: string): Effect
  {
    match WriteFile(s, p, text)
    case Err(e) => Effect(Raised(e), s)
    case Ok(s1) =>
      match Add(s1, p)
      case Err(e) => Effect(Raised(e), s1)
      case Ok(s2) => CommitChange(s2, msg)
  }

  /** A commit made from a fully staged working copy reports exactly its message. */
  lemma CommitChangeReported(s: WorkTree, msg: string)
    requires s.head in s.branches && s.files == s.index
    ensures CommitChange(s, msg).outcome.Done? ==>
      Appended(s, CommitChange(s, msg).after, [msg]) && Clean(CommitChange(s, msg).after)
  {
    match CommitIndex(s, msg)
    case Err(_) =>
    case Ok(t) =>
      var h := HeadHistory(s);
      assert HeadHistory(t) == h + [Commit(msg, s.index)];
      assert HeadHistory(t)[..|h|] == h;
      assert HeadHistory(t)[|h|..] == [Commit(msg, s.index)];
  }

  /** Writing, staging and committing one file from a clean checkout commits
      exactly that file: it succeeds whenever the file can be written and its
      contents change, and it reports the commit message as the only change. */
  lemma WriteAddCommitLaw(s: WorkTree, p: Path, text: string, msg: string)
    ensures Reported(s, WriteAddCommit(s, p, text, msg))
    ensures WriteAddCommit(s, p, text, msg).outcome.Done? ==>
      WriteAddCommit(s, p, text, msg).outcome == Done([msg])
      && WriteAddCommit(s, p, text, msg).after.files == s.files[p := text]
      && WriteAddCommit(s, p, text, msg).after.dirs == s.dirs
    ensures Clean(s) && p !in s.dirs && IsDir(s, Parent(p)) && (p !in s.files || s.files[p] != text) ==>
      WriteAddCommit(s, p, text, msg).outcome == Done([msg])
  {
    match WriteFile(s, p, text)
    case Err(_) =>
    case Ok(s1) =>
      match Add(s1, p)
      case Err(_) =>
      case Ok(s2) =>
        assert s2.files == s.files[p := text] && s2.index == s.index[p := text];
        if Clean(s) {
          assert s2.files == s2.index;
          CommitChangeReported(s2, msg);
          if p !in s.files || s.files[p] != text {
            assert s2.index[p] == text;
            assert HeadTree(s2) == HeadTree(s);
            assert p !in HeadTree(s) || HeadTree(s)[p] != text;
            assert s2.index != HeadTree(s2);
          }
        }
  }

  // ---------------------------------------------------------------------
  // The rule that rewrites one existing file.

  /** The identity conversion: the base class's `convert`. */
  function KeepContents(s: WorkTree, contents: string): string
  {
    contents
  }

  /** A rule that converts the contents of `filename` and commits the result
      with `msg` when the conversion changed something.  `convert` may look
      at the rest of the working copy. */
  datatype SingleFileFix = SingleFileFix(filename: Path, msg: string, convert: (WorkTree, string) -> string)
  {
    function Step(s: WorkTree): Effect
    {
      if !IsFile(s, filename) then Effect(Done([]), s)
      else
        var contents := s.files[filename];
        var converted := convert(s, contents);
        if contents == converted then Effect(Done([]), s)
        else WriteAddCommit(s, filename, converted, msg)
    }

    method Run(g: GitWorkingDir) returns (o: Outcome)
      modifies g
      ensures Effect(o, g.State()) == Step(old(g.State()))
    {
      var s := g.State();
      var contents := g.ReadFile(filename);
      if contents.None? {
        return Done([]);
      }
      var converted := convert(s, contents.value);
      if contents.value == converted {
        return Done([]);
      }
      var err := g.Write(filename, converted);
      if err.Some? {
        return Raised(err.value);
      }
      err := g.Stage(filename);
      err := g.CommitAll(msg);
      if err.Some? {
        return Raised(err.value);
      }
      o := Done([msg]);
    }
  }

  /** On a clean, well-formed checkout the rule never raises; it reports its
      message exactly when the file exists and the conversion changes it, and
      otherwise changes nothing at all. */
  lemma SingleFileLaw(fix: SingleFileFix, s: WorkTree)
    ensures Reported(s, fix.Step(s))
    ensures Clean(s) && WellFormed(s) ==>
      fix.Step(s).outcome ==
        (if IsFile(s, fix.filename) && fix.convert(s, s.files[fix.filename]) != s.files[fix.filename]
         then Done([fix.msg]) else Done([]))
    ensures fix.Step(s).outcome == Done([]) ==> fix.Step(s).after == s
  {
    NothingReported(s);
    if IsFile(s, fix.filename) {
      var contents := s.files[fix.filename];
      var converted := fix.convert(s, contents);
      if contents != converted {
        WriteAddCommitLaw(s, fix.filename, converted, fix.msg);
      }
    }
  }

  /** With the base class's identity `convert`, the rule never changes anything. */
  lemma KeepContentsNeverChanges(filename: Path, msg: string, s: WorkTree)
    ensures SingleFileFix(filename, msg, KeepContents).Step(s) == Effect(Done([]), s)
  {
  }

  /** A conversion that leaves its own output alone makes a second run a no-op. */
  lemma SingleFileSecondRun(fix: SingleFileFix, s: WorkTree)
    requires Clean(s) && WellFormed(s) && IsFile(s, fix.filename)
    requires var e := fix.Step(s); var c := fix.convert(s, s.files[fix.filename]);
      fix.convert(e.after, c) == c
    ensures fix.Step(fix.Step(s).after) == Effect(Done([]), fix.Step(s).after)
  {
    var contents := s.files[fix.filename];
    var converted := fix.convert(s, contents);
    if contents != converted {
      WriteAddCommitLaw(s, fix.filename, converted, fix.msg);
      assert fix.Step(s).after.files[fix.filename] == converted;
    }
  }

  // ---------------------------------------------------------------------
  // The rule that creates one missing file.

  /** Where a missing file's contents come from: none (the base class), a
      fixed text, or a download that failed with an HTTP error. */
  datatype ContentSource = NoContent | Content(text: string) | FetchFailed(error: string)

  predicate ValidSegments(parts: seq<string>)
  {
    forall k :: 0 <= k < |parts| ==> parts[k] != "" && '/' !in parts[k]
  }

  predicate NoEmptySegment(parts: seq<string>)
  {
    forall k :: 0 <= k < |parts| ==> parts[k] != ""
  }

  /** The constructor's check and split of the target path: `\` becomes `/`,
      and no segment may be empty. */
  function SplitTarget(filename: string): (r: Result<(seq<string>, string)>)
    ensures r.Ok? <==> filename != "" && NoEmptySegment(Split(Replace(filename, "\\", "/"), '/'))
    ensures r.Ok? ==> ValidSegments(r.value.0 + [r.value.1])
    ensures r.Ok? ==> JoinPath(r.value.0 + [r.value.1]) == Replace(filename, "\\", "/")
    ensures r.Err? && filename == "" ==> r.error == "filename cannot be empty"
  {
    if filename == "" then Err("filename cannot be empty")
    else
      var parts := Split(Replace(filename, "\\", "/"), '/');
      if !NoEmptySegment(parts) then Err("Found empty path segment in " + filename)
      else
        JoinSplit(Replace(filename, "\\", "/"), '/');
        FrontLast(parts);
        Ok((parts[..|parts| - 1], parts[|parts| - 1]))
  }

  /** A path built from valid segments without `\\` splits back into those
      segments: the constructor accepts it and keeps its directories and
      file name. */
  lemma SplitTargetOfJoin(dirs: seq<string>, name: string)
    requires ValidSegments(dirs + [name])
    requires forall k :: 0 <= k < |dirs + [name]| ==> '\\' !in (dirs + [name])[k]
    ensures SplitTarget(JoinPath(dirs + [name])) == Ok((dirs, name))
  {
    var parts := dirs + [name];
    var p := JoinPath(parts);
    JoinAvoids("/", parts, '\\');
    ReplaceAbsent(p, "\\", "/");
    assert Replace(p, "\\", "/") == p;
    SplitJoin(parts, '/');
    assert Split(p, '/') == parts;
    assert p != "" by {
      if |parts| == 1 {
      } else {
        JoinLastNonEmpty(parts);
      }
    }
    assert parts[..|parts| - 1] == dirs;
  }

  /** Create each directory on the way to a file, from the root down, skipping
      those that exist. */
  function EnsureDirs(s: WorkTree, parts: seq<string>, i: nat): Effect
    requires i <= |parts|
    decreases |parts| - i
  {
    if i == |parts| then Effect(Done([]), s)
    else
      var d := JoinPath(parts[..i + 1]);
      if IsDir(s, d) then EnsureDirs(s, parts, i + 1)
      else
        match Mkdir(s, d)
        case Err(e) => Effect(Raised(e), s)
        case Ok(t) => EnsureDirs(t, parts, i + 1)
  }

  /** Create each directory on the way, as `EnsureDirs` describes. */
  method EnsureDirectories(g: GitWorkingDir, parts: seq<string>) returns (err: Option<string>)
    modifies g
    ensures var e := EnsureDirs(old(g.State()), parts, 0);
      g.State() == e.after && (err.None? <==> e.outcome.Done?) && (err.Some? ==> e.outcome == Raised(err.value))
  {
    ghost var s0 := g.State();
    EnsureDirsFrame(s0, parts, 0);
    for i := 0 to |parts|
      invariant EnsureDirs(s0, parts, 0) == EnsureDirs(g.State(), parts, i)
    {
      var d := JoinPath(parts[..i + 1]);
      if !(d == "" || d in g.dirs) {
        err := g.MakeDir(d);
        if err.Some? {
          return;
        }
      }
    }
    err := None;
  }

  /** The directory prefixes of a path, as `os.path.join` builds them. */
  function DirPrefix(parts: seq<string>, i: nat): Path
    requires 1 <= i <= |parts|
  {
    JoinPath(parts[..i])
  }

  lemma {:induction false} JoinSnoc(parts: seq<string>, x: string)
    ensures JoinPath(parts + [x]) == if parts == [] then x else JoinPath(parts) + "/" + x
    decreases |parts|
  {
    if |parts| > 1 {
      assert (parts + [x])[1..] == parts[1..] + [x];
      JoinSnoc(parts[1..], x);
    } else if |parts| == 1 {
      assert (parts + [x])[1..] == [x];
      assert JoinPath([x]) == x;
    }
  }

  lemma {:induction false} ParentOfLast(a: string, x: string)
    requires '/' !in x
    ensures Parent(a + "/" + x) == a
    ensures Parent(x) == ""
    decreases |x|
  {
    if |x| > 0 {
      var y := x[..|x| - 1];
      assert (a + "/" + x)[..|a + "/" + x| - 1] == a + "/" + y;
      assert x[..|x| - 1] == y;
      ParentOfLast(a, y);
    } else {
      assert (a + "/")[..|a|] == a;
    }
  }

  lemma ParentOfPrefix(parts: seq<string>, i: nat)
    requires ValidSegments(parts) && 1 <= i < |parts|
    ensures Parent(DirPrefix(parts, i + 1)) == DirPrefix(parts, i)
  {
    assert parts[..i + 1] == parts[..i] + [parts[i]];
    JoinSnoc(parts[..i], parts[i]);
    ParentOfLast(JoinPath(parts[..i]), parts[i]);
  }

  lemma ParentOfFirst(parts: seq<string>)
    requires ValidSegments(parts) && 1 <= |parts|
    ensures Parent(DirPrefix(parts, 1)) == ""
  {
    assert parts[..1] == [parts[0]];
    ParentOfLast("", parts[0]);
  }

  /** Creating directories touches nothing but the set of directories, and only adds to it. */
  lemma {:induction false} EnsureDirsFrame(s: WorkTree, parts: seq<string>, i: nat)
    requires i <= |parts|
    ensures EnsureDirs(s, parts, i).after == s.(dirs := EnsureDirs(s, parts, i).after.dirs)
    ensures s.dirs <= EnsureDirs(s, parts, i).after.dirs
    ensures EnsureDirs(s, parts, i).outcome.Done? ==> EnsureDirs(s, parts, i).outcome.changes == []
    decreases |parts| - i
  {
    if i < |parts| {
      var d := JoinPath(parts[..i + 1]);
      if IsDir(s, d) {
        EnsureDirsFrame(s, parts, i + 1);
      } else if Mkdir(s, d).Ok? {
        EnsureDirsFrame(Mkdir(s, d).value, parts, i + 1);
      }
    }
  }

  /** When no prefix of the path is a file, every directory on the way
      exists afterwards. */
  lemma {:induction false} EnsureDirsSucceeds(s: WorkTree, parts: seq<string>, i: nat)
    requires ValidSegments(parts) && i <= |parts|
    requires forall j :: 1 <= j <= i ==> IsDir(s, DirPrefix(parts, j))
    requires forall j :: i < j <= |parts| ==> DirPrefix(parts, j) !in s.files
    ensures EnsureDirs(s, parts, i).outcome == Done([])
    ensures forall j :: 1 <= j <= |parts| ==> IsDir(EnsureDirs(s, parts, i).after, DirPrefix(parts, j))
    decreases |parts| - i
  {
    if i < |parts| {
      var d := DirPrefix(parts, i + 1);
      if i == 0 {
        ParentOfFirst(parts);
      } else {
        ParentOfPrefix(parts, i);
      }
      var t := if IsDir(s, d) then s else Mkdir(s, d).value;
      assert forall j :: 1 <= j <= i + 1 ==> IsDir(t, DirPrefix(parts, j));
      EnsureDirsSucceeds(t, parts, i + 1);
      EnsureDirsFrame(t, parts, i + 1);
    }
  }

  /** When every directory on the way already exists nothing is created. */
  lemma {:induction false} EnsureDirsPresent(s: WorkTree, parts: seq<string>, i: nat)
    requires i <= |parts|
    requires forall j :: i < j <= |parts| ==> IsDir(s, DirPrefix(parts, j))
    ensures EnsureDirs(s, parts, i) == Effect(Done([]), s)
    decreases |parts| - i
  {
    if i < |parts| {
      assert IsDir(s, DirPrefix(parts, i + 1));
      EnsureDirsPresent(s, parts, i + 1);
    }
  }

  /** A rule that creates `directoryParts/filenamePart` when it is missing,
      the rule `applies` to the checkout and there is content for it. */
  datatype MissingFileFix = MissingFileFix(
    directoryParts: seq<string>,
    filenamePart: string,
    applies: WorkTree -> bool,
    contents: ContentSource)
  {
    function RelativePath(): Path
    {
      JoinPath(directoryParts + [filenamePart])
    }

    function Message(): string
    {
      "chore: Adding " + RelativePath()
    }

    function Step(s: WorkTree): Effect
    {
      var e := EnsureDirs(s, directoryParts, 0);
      if e.outcome.Raised? then e
      else
        var s1 := e.after;
        var p := RelativePath();
        if IsFile(s1, p) then Effect(Done([]), s1)
        else if !applies(s1) then Effect(Done([]), s1)
        else
          match contents
          case NoContent => Effect(Done([]), s1)
          case FetchFailed(err) => Effect(Raised(err), s1)
          case Content(text) => WriteAddCommit(s1, p, text, Message())
    }

    method Run(g: GitWorkingDir) returns (o: Outcome)
      modifies g
      ensures Effect(o, g.State()) == Step(old(g.State()))
    {
      var err := EnsureDirectories(g, directoryParts);
      if err.Some? {
        return Raised(err.value);
      }
      var p := RelativePath();
      if p in g.files {
        return Done([]);
      }
      var s1 := g.State();
      if !applies(s1) {
        return Done([]);
      }
      match contents {
        case NoContent =>
          return Done([]);
        case FetchFailed(e) =>
          return Raised(e);
        case Content(text) =>
          err := g.Write(p, text);
          if err.Some? {
            return Raised(err.value);
          }
          err := g.Stage(p);
          err := g.CommitAll(Message());
          if err.Some? {
            return Raised(err.value);
          }
          o := Done([Message()]);
      }
    }
  }

  /** The constructor: the target path is split into directories and a file
      name, or construction fails with the source's `ValueError` message. */
  function NewMissingFileFix(filename: string, applies: WorkTree -> bool, contents: ContentSource): (r: Result<MissingFileFix>)
    ensures r.Ok? <==> SplitTarget(filename).Ok?
    ensures r.Ok? ==> r.value.RelativePath() == Replace(filename, "\\", "/")
    ensures r.Ok? ==> ValidSegments(r.value.directoryParts + [r.value.filenamePart])
  {
    match SplitTarget(filename)
    case Err(e) => Err(e)
    case Ok(split) => Ok(MissingFileFix(split.0, split.1, applies, contents))
  }

  /** A rule for a fixed target path that the constructor accepts as it
      stands: built from the path's own segments. */
  function FixedMissingFileFix(dirs: seq<string>, name: string, applies: WorkTree -> bool, contents: ContentSource): (r: MissingFileFix)
    requires ValidSegments(dirs + [name])
    requires forall k :: 0 <= k < |dirs + [name]| ==> '\\' !in (dirs + [name])[k]
    ensures r.directoryParts == dirs && r.filenamePart == name
    ensures ValidSegments(r.directoryParts + [r.filenamePart])
  {
    MissingFileFix(dirs, name, applies, contents)
  }

  /** The rule for a fixed target path is the one the constructor builds
      from that path. */
  lemma FixedAccepted(dirs: seq<string>, name: string, applies: WorkTree -> bool, contents: ContentSource)
    requires ValidSegments(dirs + [name])
    requires forall k :: 0 <= k < |dirs + [name]| ==> '\\' !in (dirs + [name])[k]
    ensures NewMissingFileFix(JoinPath(dirs + [name]), applies, contents) == Ok(FixedMissingFileFix(dirs, name, applies, contents))
  {
    SplitTargetOfJoin(dirs, name);
  }

  /** A path segment: not empty, and neither kind of slash in it. */
  predicate PlainSegment(x: string)
  {
    x != "" && forall i | 0 <= i < |x| :: x[i] != '/' && x[i] != '\\'
  }

  /** A one-segment target path: the constructor accepts it as it stands. */
  lemma PlainName(name: string)
    requires PlainSegment(name)
    ensures ValidSegments([] + [name])
    ensures forall k :: 0 <= k < |[] + [name]| ==> '\\' !in ([] + [name])[k]
    ensures JoinPath([] + [name]) == name
  {
    assert [] + [name] == [name];
  }

  /** A target path of one directory and a file name. */
  lemma PlainDirName(dir: string, name: string)
    requires PlainSegment(dir) && PlainSegment(name)
    ensures ValidSegments([dir] + [name])
    ensures forall k :: 0 <= k < |[dir] + [name]| ==> '\\' !in ([dir] + [name])[k]
    ensures JoinPath([dir] + [name]) == dir + "/" + name
  {
    var parts := [dir] + [name];
    assert parts[1..] == [name];
    assert Join("/", parts[1..]) == name;
  }

  /** Contents fetched over HTTP: the body, or the error `raise_for_status` raises. */
  function FromDownload(response: Result<string>): (c: ContentSource)
    ensures response.Ok? <==> c.Content?
    ensures response.Ok? ==> c.text == response.value
    ensures response.Err? ==> c == FetchFailed(response.error)
  {
    match response
    case Ok(text) => Content(text)
    case Err(e) => FetchFailed(e)
  }

  /** The existence check comes first: once the file exists, neither the
      applicability test nor the contents can influence the run, which
      reports nothing and only creates the missing directories. */
  lemma MissingExistingFirst(fix: MissingFileFix, s: WorkTree, applies: WorkTree -> bool, contents: ContentSource)
    requires IsFile(s, fix.RelativePath())
    ensures fix.(applies := applies, contents := contents).Step(s) == fix.Step(s)
    ensures fix.Step(s).outcome.Done? ==> fix.Step(s).outcome.changes == []
    ensures fix.Step(s).after == s.(dirs := fix.Step(s).after.dirs)
  {
    EnsureDirsFrame(s, fix.directoryParts, 0);
  }

  /** Creating the directories keeps the reporting contract: no commit, clean stays clean. */
  lemma EnsureDirsReported(s: WorkTree, parts: seq<string>)
    ensures Reported(s, EnsureDirs(s, parts, 0))
  {
    EnsureDirsFrame(s, parts, 0);
    var s1 := EnsureDirs(s, parts, 0).after;
    if Clean(s) {
      AppendedNothing(s);
      assert s1.branches == s.branches;
    }
  }

  /** A missing-file rule keeps the reporting contract, and every directory on
      the way exists afterwards whatever the rule decided. */
  lemma MissingFileLaw(fix: MissingFileFix, s: WorkTree)
    ensures Reported(s, fix.Step(s))
    ensures fix.Step(s).outcome.Done? ==>
      forall j :: 1 <= j <= |fix.directoryParts| ==> IsDir(fix.Step(s).after, DirPrefix(fix.directoryParts, j))
  {
    var parts := fix.directoryParts;
    var p := fix.RelativePath();
    EnsureDirsFrame(s, parts, 0);
    EnsureDirsReported(s, parts);
    var e := EnsureDirs(s, parts, 0);
    var s1 := e.after;
    if e.outcome.Done? {
      EnsureDirsReachedAll(s, parts, 0);
      if !IsFile(s1, p) && fix.applies(s1) && fix.contents.Content? {
        WriteAddCommitLaw(s1, p, fix.contents.text, fix.Message());
        if Clean(s) && fix.Step(s).outcome.Done? {
          AppendedTrans(s, s1, fix.Step(s).after, [], [fix.Message()]);
        }
      } else {
        NothingReported(s1);
      }
    }
  }

  /** The file path is not one of its own directory prefixes, and its parent
      is the last of them. */
  lemma TargetAfterPrefixes(fix: MissingFileFix)
    requires ValidSegments(fix.directoryParts + [fix.filenamePart])
    ensures forall j :: 1 <= j <= |fix.directoryParts| ==> DirPrefix(fix.directoryParts, j) != fix.RelativePath()
    ensures |fix.directoryParts| == 0 ==> Parent(fix.RelativePath()) == ""
    ensures |fix.directoryParts| > 0 ==> Parent(fix.RelativePath()) == DirPrefix(fix.directoryParts, |fix.directoryParts|)
  {
    var parts := fix.directoryParts;
    var all := parts + [fix.filenamePart];
    forall j | 1 <= j <= |parts| ensures DirPrefix(parts, j) != fix.RelativePath() {
      PrefixShorter(parts, fix.filenamePart, j);
    }
    assert all[..|parts| + 1] == all;
    assert DirPrefix(all, |parts| + 1) == fix.RelativePath();
    if |parts| == 0 {
      ParentOfFirst(all);
    } else {
      ParentOfPrefix(all, |parts|);
      assert all[..|parts|] == parts[..|parts|];
    }
  }

  /** When no directory prefix is a file, the directory step succeeds and
      leaves the target writable unless the target is itself a directory. */
  lemma DirsReadyForTarget(fix: MissingFileFix, s: WorkTree)
    requires ValidSegments(fix.directoryParts + [fix.filenamePart])
    requires forall j :: 1 <= j <= |fix.directoryParts| ==> DirPrefix(fix.directoryParts, j) !in s.files
    requires fix.RelativePath() !in s.dirs
    ensures EnsureDirs(s, fix.directoryParts, 0).outcome == Done([])
    ensures fix.RelativePath() !in EnsureDirs(s, fix.directoryParts, 0).after.dirs
    ensures IsDir(EnsureDirs(s, fix.directoryParts, 0).after, Parent(fix.RelativePath()))
    ensures EnsureDirs(s, fix.directoryParts, 0).after == s.(dirs := EnsureDirs(s, fix.directoryParts, 0).after.dirs)
  {
    var parts := fix.directoryParts;
    assert ValidSegments(parts) by {
      forall k | 0 <= k < |parts| ensures parts[k] != "" && '/' !in parts[k] {
        assert parts[k] == (parts + [fix.filenamePart])[k];
      }
    }
    EnsureDirsFrame(s, parts, 0);
    EnsureDirsSucceeds(s, parts, 0);
    EnsureDirsOnlyPrefixes(s, parts, 0);
    TargetAfterPrefixes(fix);
  }

  /** On a clean checkout whose directory prefixes are not files and whose
      target is not a directory, a rule with fixed or no content never raises:
      it reports its one message exactly when the file was absent and the rule
      applies to the checkout. */
  lemma MissingFileOutcome(fix: MissingFileFix, s: WorkTree)
    requires ValidSegments(fix.directoryParts + [fix.filenamePart])
    requires Clean(s) && !fix.contents.FetchFailed?
    requires forall j :: 1 <= j <= |fix.directoryParts| ==> DirPrefix(fix.directoryParts, j) !in s.files
    requires fix.RelativePath() !in s.dirs
    ensures var s1 := EnsureDirs(s, fix.directoryParts, 0).after;
      fix.Step(s).outcome ==
        (if !IsFile(s, fix.RelativePath()) && fix.applies(s1) && fix.contents.Content?
         then Done([fix.Message()]) else Done([]))
  {
    DirsReadyForTarget(fix, s);
    var s1 := EnsureDirs(s, fix.directoryParts, 0).after;
    var p := fix.RelativePath();
    assert Clean(s1);
    if !IsFile(s1, p) && fix.applies(s1) && fix.contents.Content? {
      WriteAddCommitLaw(s1, p, fix.contents.text, fix.Message());
    }
  }

  /** A rule whose contents are downloaded, under the same conditions: when
      the file is absent and the rule applies, a successful download is
      committed and a failed one raises its error, having created only the
      directories; otherwise nothing is reported. */
  lemma MissingFileDownload(fix: MissingFileFix, s: WorkTree, response: Result<string>)
    requires ValidSegments(fix.directoryParts + [fix.filenamePart])
    requires Clean(s) && fix.contents == FromDownload(response)
    requires forall j :: 1 <= j <= |fix.directoryParts| ==> DirPrefix(fix.directoryParts, j) !in s.files
    requires fix.RelativePath() !in s.dirs
    ensures var s1 := EnsureDirs(s, fix.directoryParts, 0).after;
      fix.Step(s).outcome ==
        (if IsFile(s, fix.RelativePath()) || !fix.applies(s1) then Done([])
         else if response.Ok? then Done([fix.Message()])
         else Raised(response.error))
    ensures fix.Step(s).outcome.Raised? ==> fix.Step(s).after == s.(dirs := fix.Step(s).after.dirs)
  {
    DirsReadyForTarget(fix, s);
    if response.Ok? {
      MissingFileOutcome(fix, s);
    }
  }

  /** Whatever the outcome, a directory run that returns has made every prefix. */
  lemma {:induction false} EnsureDirsReachedAll(s: WorkTree, parts: seq<string>, i: nat)
    requires i <= |parts|
    requires EnsureDirs(s, parts, i).outcome.Done?
    ensures forall j :: i < j <= |parts| ==> IsDir(EnsureDirs(s, parts, i).after, DirPrefix(parts, j))
    decreases |parts| - i
  {
    if i < |parts| {
      var d := JoinPath(parts[..i + 1]);
      var t := if IsDir(s, d) then s else Mkdir(s, d).value;
      EnsureDirsReachedAll(t, parts, i + 1);
      EnsureDirsFrame(t, parts, i + 1);
    }
  }

  /** The directories created are prefixes of the path. */
  lemma {:induction false} EnsureDirsOnlyPrefixes(s: WorkTree, parts: seq<string>, i: nat)
    requires i <= |parts|
    ensures forall d :: d in EnsureDirs(s, parts, i).after.dirs && d !in s.dirs ==>
      exists j :: i < j <= |parts| && d == DirPrefix(parts, j)
    decreases |parts| - i
  {
    if i < |parts| {
      var d := JoinPath(parts[..i + 1]);
      if IsDir(s, d) {
        EnsureDirsOnlyPrefixes(s, parts, i + 1);
      } else if Mkdir(s, d).Ok? {
        var t := Mkdir(s, d).value;
        EnsureDirsOnlyPrefixes(t, parts, i + 1);
        var after := EnsureDirs(s, parts, i).after;
        assert after == EnsureDirs(t, parts, i + 1).after;
        forall x | x in after.dirs && x !in s.dirs
          ensures exists j :: i < j <= |parts| && x == DirPrefix(parts, j)
        {
          if x == d {
            assert x == DirPrefix(parts, i + 1);
          } else {
            assert x !in t.dirs;
          }
        }
      }
    }
  }

  /** A directory prefix is strictly shorter than the file path. */
  lemma PrefixShorter(parts: seq<string>, name: string, j: nat)
    requires ValidSegments(parts + [name]) && 1 <= j <= |parts|
    ensures DirPrefix(parts, j) != JoinPath(parts + [name])
  {
    var all := parts + [name];
    assert all[..j] == parts[..j];
    JoinPrefixShorter(all, j);
  }

  lemma {:induction false} JoinPrefixShorter(parts: seq<string>, j: nat)
    requires ValidSegments(parts) && 1 <= j < |parts|
    ensures |JoinPath(parts[..j])| < |JoinPath(parts)|
    decreases |parts|
  {
    assert parts == parts[..|parts| - 1] + [parts[|parts| - 1]];
    JoinSnoc(parts[..|parts| - 1], parts[|parts| - 1]);
    if j < |parts| - 1 {
      JoinPrefixShorter(parts[..|parts| - 1], j);
      assert parts[..|parts| - 1][..j] == parts[..j];
    } else {
      assert parts[..|parts| - 1] == parts[..j];
    }
  }

  /** After a run that created the file, a second run reports nothing and
      changes nothing. */
  lemma MissingSecondRun(fix: MissingFileFix, s: WorkTree)
    requires ValidSegments(fix.directoryParts + [fix.filenamePart])
    requires fix.Step(s).outcome == Done([fix.Message()])
    ensures fix.Step(fix.Step(s).after) == Effect(Done([]), fix.Step(s).after)
  {
    var parts := fix.directoryParts;
    var t := fix.Step(s).after;
    MissingFileLaw(fix, s);
    EnsureDirsPresent(t, parts, 0);
    EnsureDirsFrame(s, parts, 0);
    var s1 := EnsureDirs(s, parts, 0).after;
    WriteAddCommitLaw(s1, fix.RelativePath(), fix.contents.text, fix.Message());
  }
}
