/**
  The Pascal rules: trimming trailing whitespace, automatic formatting with
  the JEDI code formatter, and the `.gitignore` of Lazarus projects.  The
  formatter executable, its configuration file and what it makes of a file
  are inputs of the model.
 */
module Pascal {
  import opened Wrappers
  import opened Text
  import opened Git
  import opened Templates
  import opened FixersBase

  // ---------------------------------------------------------------------
  // trim_trailing_whitespace

  /** Each line right-stripped and given back its `\n`. */
  function TrimLines(lines: seq<string>): (r: seq<string>)
    ensures |r| == |lines|
    ensures forall k :: 0 <= k < |r| ==> r[k] == RStrip(lines[k]) + "\n"
  {
    seq(|lines|, k requires 0 <= k < |lines| => RStrip(lines[k]) + "\n")
  }

  /** `trim_trailing_whitespace` on the contents of a file. */
  function TrimTrailingWhitespace(text: string): string
  {
    Concat(TrimLines(ReadLines(text)))
  }

  /** A line of `readlines` loses every `\n` to `rstrip`. */
  lemma RStripLine(line: string)
    requires forall j :: 0 <= j < |line| - 1 ==> line[j] != '\n'
    ensures '\n' !in RStrip(line)
  {
    var r := RStrip(line);
    forall j | 0 <= j < |r| ensures r[j] != '\n' {
      assert r[j] == line[j];
      if j == |line| - 1 {
        assert !IsSpace(r[|r| - 1]);
      }
    }
  }

  /** Read back, the trimmed text has one line per line of the input: the
      line right-stripped, ending in `\n`. */
  lemma TrimmedLines(text: string)
    ensures ReadLines(TrimTrailingWhitespace(text)) == TrimLines(ReadLines(text))
  {
    var lines := ReadLines(text);
    var trimmed := TrimLines(lines);
    forall k | 0 <= k < |trimmed| ensures '\n' !in RStrip(lines[k]) {
      RStripLine(lines[k]);
    }
    assert forall k, j :: 0 <= k < |trimmed| && 0 <= j < |trimmed[k]| - 1 ==> trimmed[k][j] != '\n' by {
      forall k, j | 0 <= k < |trimmed| && 0 <= j < |trimmed[k]| - 1 ensures trimmed[k][j] != '\n' {
        assert trimmed[k][j] == RStrip(lines[k])[j];
      }
    }
    ReadLinesConcat(trimmed);
  }

  lemma {:induction false} ConcatLast(parts: seq<string>)
    requires |parts| > 0 && parts[|parts| - 1] != ""
    ensures var c := Concat(parts); var l := parts[|parts| - 1];
      c != "" && c[|c| - 1] == l[|l| - 1]
    decreases |parts|
  {
    if |parts| > 1 {
      ConcatLast(parts[1..]);
    }
  }

  /** The trimmed text is empty only for an empty file; otherwise it ends
      in `\n`, even when the last line had none. */
  lemma TrimEndsWithNewline(text: string)
    ensures TrimTrailingWhitespace(text) == "" <==> text == ""
    ensures text != "" ==> EndsWith(TrimTrailingWhitespace(text), "\n")
  {
    var lines := ReadLines(text);
    if text != "" {
      assert |lines| > 0;
      ConcatLast(TrimLines(lines));
    }
  }

  lemma RStripNewline(x: string)
    ensures RStrip(RStrip(x) + "\n") == RStrip(x)
  {
    var y := RStrip(x);
    assert (y + "\n")[..|y|] == y;
    RStripOfStripped(y);
  }

  /** Trimming twice is trimming once. */
  lemma TrimIdempotent(text: string)
    ensures TrimTrailingWhitespace(TrimTrailingWhitespace(text)) == TrimTrailingWhitespace(text)
  {
    var lines := ReadLines(text);
    TrimmedLines(text);
    forall k | 0 <= k < |lines| ensures RStrip(RStrip(lines[k]) + "\n") == RStrip(lines[k]) {
      RStripNewline(lines[k]);
    }
    assert TrimLines(TrimLines(lines)) == TrimLines(lines);
  }

  // ---------------------------------------------------------------------
  // Recognising Pascal files and Lazarus projects.

  /** `is_pascal_entry`: a file ending in `.pas` or `.lpr`. */
  predicate IsPascalEntry(e: DirEntry)
  {
    e.isFile && (EndsWith(e.name, ".pas") || EndsWith(e.name, ".lpr"))
  }

  predicate IsLazarusEntry(e: DirEntry)
  {
    EndsWith(e.name, ".lpr") && e.isFile
  }

  /** `is_lazarus_project`: some root entry is an `.lpr` file. */
  predicate IsLazarusProject(s: WorkTree)
  {
    exists k :: 0 <= k < |RootEntries(s)| && IsLazarusEntry(RootEntries(s)[k])
  }

  /** A Lazarus project is one with an `.lpr` file directly under the root. */
  lemma LazarusProjectFiles(s: WorkTree)
    ensures IsLazarusProject(s) <==> exists p :: p in s.files && '/' !in p && EndsWith(p, ".lpr")
  {
    var es := RootEntries(s);
    if IsLazarusProject(s) {
      var k :| 0 <= k < |es| && IsLazarusEntry(es[k]);
      RootFileEntry(s, es[k].name);
    }
    if p :| p in s.files && '/' !in p && EndsWith(p, ".lpr") {
      RootFileEntry(s, p);
      var k :| 0 <= k < |es| && es[k].isFile && es[k].name == p;
      assert IsLazarusEntry(es[k]);
    }
  }

  /** The Pascal files the formatter visits are the root files ending in
      `.pas` or `.lpr`. */
  lemma PascalEntryFiles(s: WorkTree, p: Path)
    ensures (exists k :: 0 <= k < |RootEntries(s)| && IsPascalEntry(RootEntries(s)[k]) && RootEntries(s)[k].name == p)
      <==> p in s.files && '/' !in p && (EndsWith(p, ".pas") || EndsWith(p, ".lpr"))
  {
    RootFileEntry(s, p);
  }

  /** The scan of `is_lazarus_project`, stopping at the first `.lpr` file. */
  method FindLazarusEntry(es: seq<DirEntry>) returns (b: bool)
    ensures b <==> exists k :: 0 <= k < |es| && IsLazarusEntry(es[k])
  {
    for i := 0 to |es|
      invariant forall k :: 0 <= k < i ==> !IsLazarusEntry(es[k])
    {
      if EndsWith(es[i].name, ".lpr") && es[i].isFile {
        return true;
      }
    }
    return false;
  }

  method DetectLazarusProject(g: GitWorkingDir) returns (b: bool)
    ensures b == IsLazarusProject(g.State())
  {
    b := FindLazarusEntry(RootEntries(g.State()));
  }

  /** `MustHaveLazarusGitIgnore`: `.gitignore` for Lazarus projects. */
  function LazarusGitIgnoreFix(): (r: MissingFileFix)
    ensures r.directoryParts == [] && r.filenamePart == ".gitignore"
    ensures r.RelativePath() == ".gitignore"
    ensures r.applies == IsLazarusProject
    ensures r.contents == Content(LazarusGitIgnore)
  {
    assert PlainSegment(".gitignore");
    PlainName(".gitignore");
    FixedMissingFileFix([], ".gitignore", IsLazarusProject, Content(LazarusGitIgnore))
  }

  /** Without an `.lpr` file at the root the rule leaves the repository alone. */
  lemma NotLazarusNoGitIgnore(s: WorkTree)
    requires !IsLazarusProject(s)
    ensures LazarusGitIgnoreFix().Step(s) == Effect(Done([]), s)
  {
  }

  /** In a clean Lazarus checkout without one, the rule adds the
      `.gitignore` in one commit. */
  lemma LazarusGitIgnoreAdded(s: WorkTree)
    requires Clean(s) && IsLazarusProject(s) && ".gitignore" !in s.files && ".gitignore" !in s.dirs
    ensures LazarusGitIgnoreFix().Step(s).outcome == Done([LazarusGitIgnoreFix().Message()])
  {
    var fix := LazarusGitIgnoreFix();
    assert fix.RelativePath() == ".gitignore";
    MissingFileOutcome(fix, s);
  }

  // ---------------------------------------------------------------------
  // AutoFormat

  /** What the machine supplies: whether `JCF.exe` is installed, the
      configuration file found (`""` when there is none), and what the
      formatter makes of a file (an error when it exits non-zero). */
  datatype Formatter = Formatter(installed: bool, config: string, format: (Path, string) -> Result<string>)

  /** The working copy and the list of changed files after some `_process`
      calls, and the error that stopped them, if any. */
  datatype Progress = Progress(tree: WorkTree, files: seq<Path>, error: Option<string>)

  /** `_process(p)`: format and trim the file; stage it and list it when its
      contents changed. */
  function ProcessFile(jcf: Formatter, pr: Progress, p: Path): Progress
  {
    if pr.error.Some? then pr
    else if p !in pr.tree.files then pr.(error := Some("FileNotFoundError"))
    else
      var before := pr.tree.files[p];
      match jcf.format(p, before)
      case Err(e) => pr.(error := Some(e))
      case Ok(out) =>
        var after := TrimTrailingWhitespace(out);
        match WriteFile(pr.tree, p, after)
        case Err(e) => pr.(error := Some(e))
        case Ok(t) =>
          if before == after then pr.(tree := t)
          else
            match Add(t, p)
            case Err(e) => Progress(t, pr.files, Some(e))
            case Ok(t2) => Progress(t2, pr.files + [p], None)
  }

  /** The scan of `run`: `_process` on every Pascal entry, in order, until
      one raises. */
  function FormatEntries(jcf: Formatter, pr: Progress, es: seq<DirEntry>): Progress
    decreases |es|
  {
    if es == [] || pr.error.Some? then pr
    else FormatEntries(jcf, if IsPascalEntry(es[0]) then ProcessFile(jcf, pr, es[0].name) else pr, es[1..])
  }

  function AutoFormatMessage(files: seq<Path>): string
  {
    "Auto-formatted Pascal files: " + Join(", ", files)
  }

  /** The effect of `AutoFormat.run` and the object's file list afterwards. */
  datatype Formatting = Formatting(effect: Effect, files: seq<Path>)

  /** `AutoFormat.run` on an object whose list already holds `files`. */
  function AutoFormatStep(jcf: Formatter, files: seq<Path>, s: WorkTree): Formatting
  {
    if !jcf.installed || jcf.config == "" then Formatting(Effect(Done([]), s), files)
    else Finish(FormatEntries(jcf, Progress(s, files, None), RootEntries(s)))
  }

  /** The end of `run`, after the scan: commit the listed files, if any. */
  function Finish(pr: Progress): Formatting
  {
    if pr.error.Some? then Formatting(Effect(Raised(pr.error.value), pr.tree), pr.files)
    else if |pr.files| == 0 then Formatting(Effect(Done([]), pr.tree), pr.files)
    else Formatting(CommitChange(pr.tree, AutoFormatMessage(pr.files)), pr.files)
  }

  /** `AutoFormat`: the working copy and the files it has changed so far. */
  class AutoFormat {
    const git: GitWorkingDir
    const jcf: Formatter
    var files: seq<Path>

    constructor (git: GitWorkingDir, jcf: Formatter)
      ensures this.git == git && this.jcf == jcf && files == []
    {
      this.git := git;
      this.jcf := jcf;
      files := [];
    }

    method Process(p: Path) returns (err: Option<string>)
      modifies this, git
      ensures var r := ProcessFile(jcf, Progress(old(git.State()), old(files), None), p);
        git.State() == r.tree && files == r.files && err == r.error
    {
      var before := git.ReadFile(p);
      if before.None? {
        return Some("FileNotFoundError");
      }
      var out := jcf.format(p, before.value);
      if out.Err? {
        return Some(out.error);
      }
      var after := TrimTrailingWhitespace(out.value);
      err := git.Write(p, after);
      if err.Some? {
        return;
      }
      if before.value != after {
        err := git.Stage(p);
        files := files + [p];
      }
    }

    method Run() returns (o: Outcome)
      modifies this, git
      ensures var r := AutoFormatStep(jcf, old(files), old(git.State()));
        Effect(o, git.State()) == r.effect && files == r.files
    {
      if !jcf.installed || jcf.config == "" {
        return Done([]);
      }
      var es := RootEntries(git.State());
      ghost var start := Progress(git.State(), files, None);
      for i := 0 to |es|
        invariant FormatEntries(jcf, start, es) == FormatEntries(jcf, Progress(git.State(), files, None), es[i..])
      {
        DropOne(es, i);
        if IsPascalEntry(es[i]) {
          var err := Process(es[i].name);
          if err.Some? {
            return Raised(err.value);
          }
        }
      }
      if |files| == 0 {
        return Done([]);
      }
      var msg := AutoFormatMessage(files);
      var err := git.CommitAll(msg);
      if err.Some? {
        return Raised(err.value);
      }
      return Done([msg]);
    }
  }

  /** `_process` and the scan touch only files and the index, never remove
      a listed file, and keep a fully staged working copy fully staged. */
  lemma ProcessFileFrame(jcf: Formatter, pr: Progress, p: Path)
    ensures var r := ProcessFile(jcf, pr, p);
      && r.tree == pr.tree.(files := r.tree.files, index := r.tree.index)
      && (pr.tree.files == pr.tree.index ==> r.tree.files == r.tree.index)
      && |pr.files| <= |r.files| && r.files[..|pr.files|] == pr.files
      && (|r.files| == |pr.files| ==> r.tree == pr.tree)
  {
    ProcessFileTree(jcf, pr, p);
    ProcessFileList(jcf, pr, p);
  }

  lemma ProcessFileTree(jcf: Formatter, pr: Progress, p: Path)
    ensures var r := ProcessFile(jcf, pr, p);
      && r.tree == pr.tree.(files := r.tree.files, index := r.tree.index)
      && (pr.tree.files == pr.tree.index ==> r.tree.files == r.tree.index)
  {
  }

  lemma ProcessFileList(jcf: Formatter, pr: Progress, p: Path)
    ensures var r := ProcessFile(jcf, pr, p);
      && (r.files == pr.files || r.files == pr.files + [p])
      && (r.files == pr.files ==> r.tree == pr.tree)
  {
  }

  lemma {:induction false} FormatEntriesFrame(jcf: Formatter, pr: Progress, es: seq<DirEntry>)
    ensures var r := FormatEntries(jcf, pr, es);
      && r.tree == pr.tree.(files := r.tree.files, index := r.tree.index)
      && (pr.tree.files == pr.tree.index ==> r.tree.files == r.tree.index)
      && |pr.files| <= |r.files| && r.files[..|pr.files|] == pr.files
      && (|r.files| == |pr.files| ==> r.tree == pr.tree)
    decreases |es|
  {
    if es != [] && pr.error.None? {
      var pr1 := if IsPascalEntry(es[0]) then ProcessFile(jcf, pr, es[0].name) else pr;
      ProcessFileFrame(jcf, pr, es[0].name);
      FormatEntriesFrame(jcf, pr1, es[1..]);
      var r := FormatEntries(jcf, pr1, es[1..]);
      assert r.files[..|pr1.files|][..|pr.files|] == r.files[..|pr.files|];
    }
  }

  /** After a scan that touched only files and the index of a clean
      checkout, the commit keeps the reporting contract. */
  lemma FinishLaw(s: WorkTree, pr: Progress)
    requires pr.tree == s.(files := pr.tree.files, index := pr.tree.index)
    requires s.files == s.index ==> pr.tree.files == pr.tree.index
    requires pr.files == [] ==> pr.tree == s
    ensures Reported(s, Finish(pr).effect)
    ensures Finish(pr).effect.outcome.Done? ==> Finish(pr).effect.outcome.changes in {[], [AutoFormatMessage(pr.files)]}
    ensures Finish(pr).files == pr.files
  {
    assert HeadHistory(pr.tree) == HeadHistory(s);
    if pr.error.None? {
      if |pr.files| == 0 {
        if Clean(s) {
          AppendedNothing(s);
        }
      } else if Clean(s) {
        CommitChangeReported(pr.tree, AutoFormatMessage(pr.files));
      }
    }
  }

  /** `AutoFormat.run` keeps the reporting contract: it either reports
      nothing, or the one commit listing every file it has changed; without
      the formatter or its configuration it does nothing at all. */
  lemma AutoFormatLaw(jcf: Formatter, files: seq<Path>, s: WorkTree)
    ensures Reported(s, AutoFormatStep(jcf, files, s).effect)
    ensures var r := AutoFormatStep(jcf, files, s);
      r.effect.outcome.Done? ==> r.effect.outcome.changes in {[], [AutoFormatMessage(r.files)]}
    ensures !jcf.installed || jcf.config == "" ==>
      AutoFormatStep(jcf, files, s) == Formatting(Effect(Done([]), s), files)
  {
    if jcf.installed && jcf.config != "" {
      var start := Progress(s, files, None);
      var es := RootEntries(s);
      FormatEntriesFrame(jcf, start, es);
      FinishLaw(s, FormatEntries(jcf, start, es));
    } else {
      NothingReported(s);
    }
  }

  /** The formatter succeeds on every Pascal entry. */
  predicate FormatsCleanly(jcf: Formatter, s: WorkTree, es: seq<DirEntry>)
  {
    forall k :: 0 <= k < |es| && IsPascalEntry(es[k]) ==>
      es[k].name in s.files && jcf.format(es[k].name, s.files[es[k].name]).Ok?
  }

  /** What a Pascal file holds once formatted and trimmed. */
  function Reformatted(jcf: Formatter, s: WorkTree, p: Path): string
    requires p in s.files && jcf.format(p, s.files[p]).Ok?
  {
    TrimTrailingWhitespace(jcf.format(p, s.files[p]).value)
  }

  /** The Pascal entries whose contents formatting and trimming change, in
      listing order. */
  function ChangedFiles(jcf: Formatter, s: WorkTree, es: seq<DirEntry>): seq<Path>
    decreases |es|
  {
    if es == [] then []
    else
      var p := es[0].name;
      var changed := IsPascalEntry(es[0]) && p in s.files && jcf.format(p, s.files[p]).Ok?
        && Reformatted(jcf, s, p) != s.files[p];
      (if changed then [p] else []) + ChangedFiles(jcf, s, es[1..])
  }

  lemma {:induction false} ChangedFilesMember(jcf: Formatter, s: WorkTree, es: seq<DirEntry>, p: Path)
    requires p in ChangedFiles(jcf, s, es)
    ensures exists k :: 0 <= k < |es| && IsPascalEntry(es[k]) && es[k].name == p
    ensures p in s.files && jcf.format(p, s.files[p]).Ok? && Reformatted(jcf, s, p) != s.files[p]
    decreases |es|
  {
    if p != es[0].name || !(IsPascalEntry(es[0]) && p in s.files && jcf.format(p, s.files[p]).Ok?
        && Reformatted(jcf, s, p) != s.files[p]) {
      ChangedFilesMember(jcf, s, es[1..], p);
      var k :| 0 <= k < |es[1..]| && IsPascalEntry(es[1..][k]) && es[1..][k].name == p;
      assert es[k + 1] == es[1..][k];
    }
  }

  /** One `_process` call on a root file the formatter accepts. */
  lemma ProcessFileClean(jcf: Formatter, s: WorkTree, pr: Progress, p: Path)
    requires pr.error.None? && p in s.files && jcf.format(p, s.files[p]).Ok?
    requires p in pr.tree.files && pr.tree.files[p] == s.files[p] && p !in pr.tree.dirs && '/' !in p
    ensures var r := ProcessFile(jcf, pr, p);
      && r.error.None?
      && r.files == pr.files + (if Reformatted(jcf, s, p) != s.files[p] then [p] else [])
      && r.tree.files == pr.tree.files[p := Reformatted(jcf, s, p)]
  {
    ParentOfLast("", p);
  }

  /** Pascal entries with distinct names, no `/`, and contents as in `s`. */
  predicate ReadyToFormat(s: WorkTree, t: WorkTree, es: seq<DirEntry>)
  {
    && (forall i, j :: 0 <= i < j < |es| ==> es[i].name != es[j].name)
    && (forall k :: 0 <= k < |es| && IsPascalEntry(es[k]) ==>
          '/' !in es[k].name && es[k].name in t.files && es[k].name in s.files
          && t.files[es[k].name] == s.files[es[k].name] && es[k].name !in t.dirs)
  }

  /** The first step of the scan: it raises nothing, and the rest of the
      entries are still ready to format. */
  lemma FirstEntryReady(jcf: Formatter, s: WorkTree, pr: Progress, es: seq<DirEntry>)
    requires es != [] && pr.error.None? && FormatsCleanly(jcf, s, es) && ReadyToFormat(s, pr.tree, es)
    ensures var pr1 := if IsPascalEntry(es[0]) then ProcessFile(jcf, pr, es[0].name) else pr;
      && pr1.error.None?
      && pr1.files == pr.files + ChangedFiles(jcf, s, es[..1])
      && pr1.tree.files == (if IsPascalEntry(es[0]) then pr.tree.files[es[0].name := Reformatted(jcf, s, es[0].name)] else pr.tree.files)
      && FormatsCleanly(jcf, s, es[1..]) && ReadyToFormat(s, pr1.tree, es[1..])
  {
    var p := es[0].name;
    var pr1 := if IsPascalEntry(es[0]) then ProcessFile(jcf, pr, p) else pr;
    if IsPascalEntry(es[0]) {
      ProcessFileClean(jcf, s, pr, p);
    }
    ProcessFileFrame(jcf, pr, p);
    assert es[..1][1..] == [];
    var rest := es[1..];
    forall k | 0 <= k < |rest| ensures rest[k] == es[k + 1] && rest[k].name != p {
    }
  }

  /** The names of the Pascal entries among `es`. */
  function PascalNames(es: seq<DirEntry>): set<Path>
    decreases |es|
  {
    if es == [] then {}
    else (if IsPascalEntry(es[0]) then {es[0].name} else {}) + PascalNames(es[1..])
  }

  lemma {:induction false} PascalNamesMember(es: seq<DirEntry>, q: Path)
    requires q in PascalNames(es)
    ensures exists k :: 0 <= k < |es| && IsPascalEntry(es[k]) && es[k].name == q
    decreases |es|
  {
    if !(IsPascalEntry(es[0]) && es[0].name == q) {
      PascalNamesMember(es[1..], q);
      var k :| 0 <= k < |es[1..]| && IsPascalEntry(es[1..][k]) && es[1..][k].name == q;
      assert es[k + 1] == es[1..][k];
    }
  }

  /** The scan writes to no path but the Pascal entries'. */
  lemma {:induction false} FormatEntriesKeepsOthers(jcf: Formatter, pr: Progress, es: seq<DirEntry>, q: Path)
    requires q !in PascalNames(es)
    ensures var r := FormatEntries(jcf, pr, es);
      (q in r.tree.files <==> q in pr.tree.files) && (q in pr.tree.files ==> r.tree.files[q] == pr.tree.files[q])
    decreases |es|
  {
    if es != [] && pr.error.None? {
      var pr1 := if IsPascalEntry(es[0]) then ProcessFile(jcf, pr, es[0].name) else pr;
      FormatEntriesKeepsOthers(jcf, pr1, es[1..], q);
    }
  }

  /** When the formatter accepts every Pascal entry, the scan raises
      nothing and lists exactly the changed files, in order. */
  lemma {:induction false} FormatEntriesChanged(jcf: Formatter, s: WorkTree, pr: Progress, es: seq<DirEntry>)
    requires pr.error.None? && FormatsCleanly(jcf, s, es) && ReadyToFormat(s, pr.tree, es)
    ensures FormatEntries(jcf, pr, es).error.None?
    ensures FormatEntries(jcf, pr, es).files == pr.files + ChangedFiles(jcf, s, es)
    decreases |es|
  {
    if es != [] {
      var pr1 := if IsPascalEntry(es[0]) then ProcessFile(jcf, pr, es[0].name) else pr;
      FirstEntryReady(jcf, s, pr, es);
      FormatEntriesChanged(jcf, s, pr1, es[1..]);
      ChangedFilesSplit(jcf, s, es);
      Assoc(pr.files, ChangedFiles(jcf, s, es[..1]), ChangedFiles(jcf, s, es[1..]));
    }
  }

  lemma ChangedFilesSplit(jcf: Formatter, s: WorkTree, es: seq<DirEntry>)
    requires es != []
    ensures ChangedFiles(jcf, s, es) == ChangedFiles(jcf, s, es[..1]) + ChangedFiles(jcf, s, es[1..])
  {
    var one := es[..1];
    assert one[0] == es[0];
    assert |one[1..]| == 0;
    assert ChangedFiles(jcf, s, one[1..]) == [];
    var first := ChangedFiles(jcf, s, one);
    EmptyRight(first);
  }

  /** ... and leaves each Pascal file formatted and trimmed. */
  lemma {:induction false} FormatEntriesContents(jcf: Formatter, s: WorkTree, pr: Progress, es: seq<DirEntry>)
    requires pr.error.None? && FormatsCleanly(jcf, s, es) && ReadyToFormat(s, pr.tree, es)
    ensures var r := FormatEntries(jcf, pr, es);
      forall k :: 0 <= k < |es| && IsPascalEntry(es[k]) ==>
        es[k].name in r.tree.files && r.tree.files[es[k].name] == Reformatted(jcf, s, es[k].name)
    decreases |es|
  {
    if es != [] {
      var p := es[0].name;
      var pr1 := if IsPascalEntry(es[0]) then ProcessFile(jcf, pr, p) else pr;
      FirstEntryReady(jcf, s, pr, es);
      var rest := es[1..];
      FormatEntriesContents(jcf, s, pr1, rest);
      var r := FormatEntries(jcf, pr1, rest);
      if IsPascalEntry(es[0]) {
        if p in PascalNames(rest) {
          PascalNamesMember(rest, p);
          assert false;
        }
        FormatEntriesKeepsOthers(jcf, pr1, rest, p);
      }
      forall k | 0 < k < |es| && IsPascalEntry(es[k])
        ensures es[k].name in r.tree.files && r.tree.files[es[k].name] == Reformatted(jcf, s, es[k].name) {
        assert es[k] == rest[k - 1];
      }
    }
  }

  /** A root file the formatter visits. */
  predicate PascalRootFile(s: WorkTree, p: Path)
  {
    p in s.files && '/' !in p && (EndsWith(p, ".pas") || EndsWith(p, ".lpr"))
  }

  /** The root listing of a well-formed checkout is ready to format. */
  lemma RootReady(s: WorkTree)
    requires WellFormed(s)
    ensures ReadyToFormat(s, s, RootEntries(s))
  {
    RootEntriesDistinct(s);
  }

  /** A path the scan of the root listing leaves alone is no Pascal root file. */
  lemma OtherPathsNotScanned(s: WorkTree, q: Path)
    requires !PascalRootFile(s, q)
    ensures q !in PascalNames(RootEntries(s))
  {
    if q in PascalNames(RootEntries(s)) {
      PascalNamesMember(RootEntries(s), q);
      PascalEntryFiles(s, q);
    }
  }

  /** The formatter accepts every Pascal root file. */
  predicate AcceptsPascalFiles(jcf: Formatter, s: WorkTree)
  {
    forall p :: p in s.files && PascalRootFile(s, p) ==> jcf.format(p, s.files[p]).Ok?
  }

  lemma AcceptsAllEntries(jcf: Formatter, s: WorkTree)
    requires AcceptsPascalFiles(jcf, s)
    ensures FormatsCleanly(jcf, s, RootEntries(s))
  {
    var es := RootEntries(s);
    forall k | 0 <= k < |es| && IsPascalEntry(es[k]) ensures es[k].name in s.files && jcf.format(es[k].name, s.files[es[k].name]).Ok? {
      PascalEntryFiles(s, es[k].name);
    }
  }

  /** A scan of ready entries the formatter accepts raises nothing, lists
      the changed files, and changes the working copy exactly when it lists
      something. */
  lemma ScanChanges(jcf: Formatter, s: WorkTree, es: seq<DirEntry>)
    requires FormatsCleanly(jcf, s, es) && ReadyToFormat(s, s, es)
    ensures var pr := FormatEntries(jcf, Progress(s, [], None), es);
      && pr.error.None?
      && pr.files == ChangedFiles(jcf, s, es)
      && (pr.files == [] <==> pr.tree.files == s.files)
  {
    var start := Progress(s, [], None);
    var pr := FormatEntries(jcf, start, es);
    FormatEntriesChanged(jcf, s, start, es);
    FormatEntriesFrame(jcf, start, es);
    if pr.files != [] {
      var p := pr.files[0];
      ChangedFilesMember(jcf, s, es, p);
      FormatEntriesContents(jcf, s, start, es);
      assert pr.tree.files[p] != s.files[p];
    }
  }

  /** The end of `run` after a scan that raised nothing, from a clean
      checkout: one commit exactly when the scan changed something. */
  lemma FinishCommits(s: WorkTree, pr: Progress)
    requires Clean(s) && pr.error.None?
    requires pr.tree == s.(files := pr.tree.files, index := pr.tree.index) && pr.tree.files == pr.tree.index
    requires pr.files == [] <==> pr.tree.files == s.files
    ensures Finish(pr).effect.outcome == (if pr.files == [] then Done([]) else Done([AutoFormatMessage(pr.files)]))
  {
    assert HeadTree(pr.tree) == s.files;
  }

  /** A fresh `AutoFormat` on a clean, well-formed checkout whose Pascal
      files the formatter accepts commits once, listing exactly the files
      whose contents changed, or reports nothing when none did. */
  lemma AutoFormatOutcome(jcf: Formatter, s: WorkTree)
    requires Clean(s) && WellFormed(s) && jcf.installed && jcf.config != "" && AcceptsPascalFiles(jcf, s)
    ensures var r := AutoFormatStep(jcf, [], s); var changed := ChangedFiles(jcf, s, RootEntries(s));
      && r.files == changed
      && r.effect.outcome == (if changed == [] then Done([]) else Done([AutoFormatMessage(changed)]))
      && Clean(r.effect.after)
  {
    var es := RootEntries(s);
    var start := Progress(s, [], None);
    var pr := FormatEntries(jcf, start, es);
    assert AutoFormatStep(jcf, [], s) == Finish(pr);
    RootReady(s);
    AcceptsAllEntries(jcf, s);
    ScanChanges(jcf, s, es);
    FormatEntriesFrame(jcf, start, es);
    FinishCommits(s, pr);
    FinishLaw(s, pr);
  }

  /** The commit at the end of `run` leaves the files as the scan left them. */
  lemma FinishKeepsFiles(pr: Progress)
    ensures Finish(pr).effect.after.files == pr.tree.files
  {
  }

  /** What a fresh `AutoFormat` leaves in one Pascal root file. */
  lemma AutoFormatPascalPath(jcf: Formatter, s: WorkTree, p: Path)
    requires WellFormed(s) && jcf.installed && jcf.config != "" && AcceptsPascalFiles(jcf, s)
    requires PascalRootFile(s, p)
    ensures var after := AutoFormatStep(jcf, [], s).effect.after;
      p in after.files && after.files[p] == Reformatted(jcf, s, p)
  {
    var es := RootEntries(s);
    var start := Progress(s, [], None);
    assert AutoFormatStep(jcf, [], s) == Finish(FormatEntries(jcf, start, es));
    FinishKeepsFiles(FormatEntries(jcf, start, es));
    RootReady(s);
    AcceptsAllEntries(jcf, s);
    FormatEntriesContents(jcf, s, start, es);
    PascalEntryFiles(s, p);
  }

  /** A fresh `AutoFormat` leaves any other path as it was. */
  lemma AutoFormatOtherPath(jcf: Formatter, s: WorkTree, q: Path)
    requires jcf.installed && jcf.config != ""
    requires !PascalRootFile(s, q)
    ensures var after := AutoFormatStep(jcf, [], s).effect.after;
      (q in after.files <==> q in s.files) && (q in s.files ==> after.files[q] == s.files[q])
  {
    var es := RootEntries(s);
    var start := Progress(s, [], None);
    assert AutoFormatStep(jcf, [], s) == Finish(FormatEntries(jcf, start, es));
    FinishKeepsFiles(FormatEntries(jcf, start, es));
    OtherPathsNotScanned(s, q);
    FormatEntriesKeepsOthers(jcf, start, es, q);
  }

  /** ... and afterwards every Pascal root file holds the formatted,
      trimmed text, and every other path is as it was. */
  lemma AutoFormatContents(jcf: Formatter, s: WorkTree)
    requires WellFormed(s) && jcf.installed && jcf.config != "" && AcceptsPascalFiles(jcf, s)
    ensures var after := AutoFormatStep(jcf, [], s).effect.after;
      forall p :: PascalRootFile(s, p) ==> p in after.files && after.files[p] == Reformatted(jcf, s, p)
    ensures var after := AutoFormatStep(jcf, [], s).effect.after;
      forall q :: !PascalRootFile(s, q) ==> (q in after.files <==> q in s.files) && (q in s.files ==> after.files[q] == s.files[q])
  {
    forall p | PascalRootFile(s, p) {
      AutoFormatPascalPath(jcf, s, p);
    }
    forall q | !PascalRootFile(s, q) {
      AutoFormatOtherPath(jcf, s, q);
    }
  }
}
