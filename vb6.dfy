/**
  The Visual Basic 6 rule: a `.gitignore` for every repository with a VB6
  project or project group file directly under its root.
 */
module Vb6 {
  import opened Text
  import opened Git
  import opened Templates
  import opened FixersBase

  /** `has_vb6_extension`: the name ends in `.vbp` or `.vbg`. */
  predicate HasVb6Extension(name: string)
  {
    EndsWith(name, ".vbp") || EndsWith(name, ".vbg")
  }

  predicate IsVb6Entry(e: DirEntry)
  {
    e.isFile && HasVb6Extension(e.name)
  }

  /** `is_vb6_project`: some root entry is a file with a VB6 extension. */
  predicate IsVb6Project(s: WorkTree)
  {
    exists k :: 0 <= k < |RootEntries(s)| && IsVb6Entry(RootEntries(s)[k])
  }

  /** A VB6 project is one with a `.vbp` or `.vbg` file directly under the
      root; files in sub-directories and directories with such names do not
      count. */
  lemma Vb6ProjectFiles(s: WorkTree)
    ensures IsVb6Project(s) <==> exists p :: p in s.files && '/' !in p && HasVb6Extension(p)
  {
    var es := RootEntries(s);
    if IsVb6Project(s) {
      var k :| 0 <= k < |es| && IsVb6Entry(es[k]);
      RootFileEntry(s, es[k].name);
    }
    if p :| p in s.files && '/' !in p && HasVb6Extension(p) {
      RootFileEntry(s, p);
      var k :| 0 <= k < |es| && es[k].isFile && es[k].name == p;
      assert IsVb6Entry(es[k]);
    }
  }

  /** The scan of `is_vb6_project`, returning at the first VB6 file. */
  method FindVb6Entry(es: seq<DirEntry>) returns (b: bool)
    ensures b <==> exists k :: 0 <= k < |es| && IsVb6Entry(es[k])
  {
    for i := 0 to |es|
      invariant forall k :: 0 <= k < i ==> !IsVb6Entry(es[k])
    {
      if es[i].isFile && HasVb6Extension(es[i].name) {
        return true;
      }
    }
    return false;
  }

  method DetectVb6Project(g: GitWorkingDir) returns (b: bool)
    ensures b == IsVb6Project(g.State())
  {
    b := FindVb6Entry(RootEntries(g.State()));
  }

  /** `MustHaveGitIgnore`: the four VB6 build-output patterns in
      `.gitignore`, for VB6 projects only. */
  function Vb6GitIgnoreFix(): (r: MissingFileFix)
    ensures r.directoryParts == [] && r.filenamePart == ".gitignore"
    ensures r.RelativePath() == ".gitignore"
    ensures r.applies == IsVb6Project
    ensures r.contents == Content(Vb6GitIgnore)
  {
    assert PlainSegment(".gitignore");
    PlainName(".gitignore");
    FixedMissingFileFix([], ".gitignore", IsVb6Project, Content(Vb6GitIgnore))
  }

  /** Without a VB6 file at the root the rule leaves the repository alone. */
  lemma NotVb6NoGitIgnore(s: WorkTree)
    requires !IsVb6Project(s)
    ensures Vb6GitIgnoreFix().Step(s) == Effect(Done([]), s)
  {
  }

  /** In a clean VB6 checkout without one, the rule adds the `.gitignore`
      in one commit. */
  lemma Vb6GitIgnoreAdded(s: WorkTree)
    requires Clean(s) && IsVb6Project(s) && ".gitignore" !in s.files && ".gitignore" !in s.dirs
    ensures Vb6GitIgnoreFix().Step(s).outcome == Done([Vb6GitIgnoreFix().Message()])
  {
    var fix := Vb6GitIgnoreFix();
    assert fix.RelativePath() == ".gitignore";
    MissingFileOutcome(fix, s);
  }
}
