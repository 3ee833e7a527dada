/**
  The working copy a fixer runs against: the files on disk, the directories,
  git's index, the local and remote-tracking branches, and the checked-out
  branch.  A branch's "SHA" is its whole history, so two refs resolve to the
  same SHA exactly when they point at the same history.
 */
module Git {
  import opened Wrappers
  import opened Text

  type Path = string

  datatype Commit = Commit(message: string, tree: map<Path, string>)

  type History = seq<Commit>

  datatype WorkTree = WorkTree(
    files: map<Path, string>,
    dirs: set<Path>,
    index: map<Path, string>,
    branches: map<string, History>,
    remotes: map<string, History>,
    head: string)

  /** What a git command or a file operation yields: the new state, or the
      error the Python code would raise. */
  datatype Result<T> = Ok(value: T) | Err(error: string)

  datatype DirEntry = DirEntry(name: string, isFile: bool)

  function HeadHistory(s: WorkTree): History
  {
    if s.head in s.branches then s.branches[s.head] else []
  }

  function HeadTree(s: WorkTree): map<Path, string>
  {
    var h := HeadHistory(s);
    if |h| == 0 then map[] else h[|h| - 1].tree
  }

  function Messages(h: History): (ms: seq<string>)
    ensures |ms| == |h|
    ensures forall i :: 0 <= i < |h| ==> ms[i] == h[i].message
  {
    if |h| == 0 then [] else Messages(h[..|h| - 1]) + [h[|h| - 1].message]
  }

  lemma {:induction false} MessagesAppend(a: History, b: History)
    ensures Messages(a + b) == Messages(a) + Messages(b)
  {
    var l, r := Messages(a + b), Messages(a) + Messages(b);
    assert |l| == |r|;
    forall i | 0 <= i < |l| ensures l[i] == r[i] {
      if i < |a| {
        assert (a + b)[i] == a[i];
      } else {
        assert (a + b)[i] == b[i - |a|];
      }
    }
  }

  /** The commit messages of the checked-out branch, oldest first (`git log --reverse`). */
  function Log(s: WorkTree): seq<string>
  {
    Messages(HeadHistory(s))
  }

  /** A checked-out branch, nothing staged and nothing modified or untracked. */
  predicate Clean(s: WorkTree)
  {
    s.head in s.branches && s.index == HeadTree(s) && s.files == s.index
  }

  /** `t` is `s` with new commits on the checked-out branch whose messages are
      `msgs`, and every other ref left as it was. */
  predicate Appended(s: WorkTree, t: WorkTree, msgs: seq<string>)
  {
    && s.head in s.branches
    && t.head == s.head
    && t.remotes == s.remotes
    && s.head in t.branches
    && t.branches == s.branches[s.head := t.branches[s.head]]
    && |HeadHistory(s)| <= |HeadHistory(t)|
    && HeadHistory(t)[..|HeadHistory(s)|] == HeadHistory(s)
    && Messages(HeadHistory(t)[|HeadHistory(s)|..]) == msgs
  }

  lemma AppendedNothing(s: WorkTree)
    requires s.head in s.branches
    ensures Appended(s, s, [])
  {
    assert s.branches == s.branches[s.head := s.branches[s.head]];
  }

  /** Appending is transitive, and the messages concatenate in order. */
  lemma {:induction false} AppendedTrans(s: WorkTree, t: WorkTree, u: WorkTree, a: seq<string>, b: seq<string>)
    requires Appended(s, t, a) && Appended(t, u, b)
    ensures Appended(s, u, a + b)
  {
    var hs, ht, hu := HeadHistory(s), HeadHistory(t), HeadHistory(u);
    assert hu[..|hs|] == hs by {
      assert hu[..|hs|] == hu[..|ht|][..|hs|];
    }
    assert hu[|hs|..] == ht[|hs|..] + hu[|ht|..] by {
      assert ht == hu[..|ht|];
    }
    MessagesAppend(ht[|hs|..], hu[|ht|..]);
    assert u.branches == s.branches[s.head := u.branches[s.head]];
  }

  /** With the same messages appended to the same starting history, the new
      histories differ from the old exactly when something was appended. */
  lemma AppendedChangesHead(s: WorkTree, t: WorkTree, msgs: seq<string>)
    requires Appended(s, t, msgs)
    ensures HeadHistory(t) == HeadHistory(s) <==> msgs == []
  {
    var hs, ht := HeadHistory(s), HeadHistory(t);
    assert |Messages(ht[|hs|..])| == |ht| - |hs|;
    if msgs == [] {
      assert ht == ht[..|hs|];
    }
  }

  // ---------------------------------------------------------------------
  // Paths.

  /** The directory that holds `p`: everything before its last `/`, or the root `""`. */
  function Parent(p: Path): (d: Path)
    ensures |d| <= |p|
    ensures d == [] || d == p[..|d|]
  {
    if |p| == 0 then ""
    else if p[|p| - 1] == '/' then p[..|p| - 1]
    else Parent(p[..|p| - 1])
  }

  /** `os.path.join` of relative segments. */
  function JoinPath(parts: seq<string>): Path
  {
    Join("/", parts)
  }

  predicate IsFile(s: WorkTree, p: Path)
  {
    p in s.files
  }

  predicate IsDir(s: WorkTree, p: Path)
  {
    p == "" || p in s.dirs
  }

  // ---------------------------------------------------------------------
  // File operations and git commands, each as a function of the state.

  /** `open(p, "w").write(text)`: fails on a directory or a missing parent. */
  function WriteFile(s: WorkTree, p: Path, text: string): (r: Result<WorkTree>)
    ensures r.Ok? <==> p !in s.dirs && IsDir(s, Parent(p))
    ensures r.Ok? ==> r.value == s.(files := s.files[p := text])
  {
    if p in s.dirs then Err("IsADirectoryError")
    else if !IsDir(s, Parent(p)) then Err("FileNotFoundError")
    else Ok(s.(files := s.files[p := text]))
  }

  /** `os.mkdir(p)`: fails when something exists there or the parent is missing. */
  function Mkdir(s: WorkTree, p: Path): (r: Result<WorkTree>)
    ensures r.Ok? <==> p !in s.files && !IsDir(s, p) && IsDir(s, Parent(p))
    ensures r.Ok? ==> r.value == s.(dirs := s.dirs + {p})
  {
    if p in s.files || IsDir(s, p) then Err("FileExistsError")
    else if !IsDir(s, Parent(p)) then Err("FileNotFoundError")
    else Ok(s.(dirs := s.dirs + {p}))
  }

  /** `git add p`: stages the file, or its deletion; an unknown path is an error. */
  function Add(s: WorkTree, p: Path): (r: Result<WorkTree>)
    ensures r.Ok? <==> p in s.files || p in s.index
    ensures r.Ok? && p in s.files ==> r.value == s.(index := s.index[p := s.files[p]])
    ensures r.Ok? && p !in s.files ==> r.value == s.(index := s.index - {p})
  {
    if p in s.files then Ok(s.(index := s.index[p := s.files[p]]))
    else if p in s.index then Ok(s.(index := s.index - {p}))
    else Err("pathspec did not match any files")
  }

  /** `git rm p`: removes a tracked, unmodified file from the index and the disk. */
  function Rm(s: WorkTree, p: Path): (r: Result<WorkTree>)
    ensures r.Ok? <==> p in s.index && p in HeadTree(s) && s.index[p] == HeadTree(s)[p]
                       && (p in s.files ==> s.files[p] == s.index[p])
    ensures r.Ok? ==> r.value == s.(files := s.files - {p}, index := s.index - {p})
  {
    if p !in s.index then Err("pathspec did not match any files")
    else if p !in HeadTree(s) || s.index[p] != HeadTree(s)[p] then Err("has changes staged in the index")
    else if p in s.files && s.files[p] != s.index[p] then Err("has local modifications")
    else Ok(s.(files := s.files - {p}, index := s.index - {p}))
  }

  /** `git commit -m msg`: records the index on the checked-out branch; with
      nothing staged git exits non-zero. */
  function CommitIndex(s: WorkTree, msg: string): (r: Result<WorkTree>)
    ensures r.Ok? <==> s.head in s.branches && s.index != HeadTree(s)
    ensures r.Ok? ==> r.value == s.(branches := s.branches[s.head := HeadHistory(s) + [Commit(msg, s.index)]])
  {
    if s.head !in s.branches then Err("not on a branch")
    else if s.index == HeadTree(s) then Err("nothing to commit")
    else Ok(s.(branches := s.branches[s.head := HeadHistory(s) + [Commit(msg, s.index)]]))
  }

  /** `git checkout -b name`: a new branch at the current commit, checked out. */
  function CreateBranch(s: WorkTree, name: string): (r: Result<WorkTree>)
    ensures r.Ok? <==> s.head in s.branches && name !in s.branches
    ensures r.Ok? ==> r.value == s.(branches := s.branches[name := HeadHistory(s)], head := name)
  {
    if s.head !in s.branches then Err("not on a branch")
    else if name in s.branches then Err("branch already exists")
    else Ok(s.(branches := s.branches[name := HeadHistory(s)], head := name))
  }

  function TreeOf(h: History): map<Path, string>
  {
    if |h| == 0 then map[] else h[|h| - 1].tree
  }

  /** `git checkout name`: a local branch, or a new local branch tracking the
      remote one of that name; the working copy becomes that branch's tree. */
  function CheckoutBranch(s: WorkTree, name: string): (r: Result<WorkTree>)
    ensures r.Ok? <==> name in s.branches || name in s.remotes
    ensures r.Ok? ==> r.value.head == name && name in r.value.branches
    ensures r.Ok? && name !in s.branches ==> r.value.branches[name] == s.remotes[name]
    ensures r.Ok? ==> Clean(r.value)
  {
    if name in s.branches then
      var t := TreeOf(s.branches[name]);
      Ok(s.(head := name, files := t, index := t))
    else if name in s.remotes then
      var t := TreeOf(s.remotes[name]);
      Ok(s.(branches := s.branches[name := s.remotes[name]], head := name, files := t, index := t))
    else Err("pathspec did not match any file(s) known to git")
  }

  /** `git push -u origin HEAD`. */
  function Push(s: WorkTree): (r: Result<WorkTree>)
    ensures r.Ok? <==> s.head in s.branches
    ensures r.Ok? ==> r.value == s.(remotes := s.remotes[s.head := HeadHistory(s)])
  {
    if s.head !in s.branches then Err("not on a branch")
    else Ok(s.(remotes := s.remotes[s.head := HeadHistory(s)]))
  }

  const RemotePrefix: string := "remotes/origin/"

  /** `git rev-parse ref`: a local branch, or `remotes/origin/<name>`. */
  function RevParse(s: WorkTree, ref: string): (r: Result<History>)
    ensures !StartsWith(ref, RemotePrefix) ==> (r.Ok? <==> ref in s.branches)
    ensures !StartsWith(ref, RemotePrefix) && r.Ok? ==> r.value == s.branches[ref]
    ensures StartsWith(ref, RemotePrefix) ==> (r.Ok? <==> ref[|RemotePrefix|..] in s.remotes)
  {
    if StartsWith(ref, RemotePrefix) then
      var name := ref[|RemotePrefix|..];
      if name in s.remotes then Ok(s.remotes[name]) else Err("unknown revision")
    else if ref in s.branches then Ok(s.branches[ref])
    else Err("unknown revision")
  }

  /** The names directly under the root of the working copy. */
  function RootNames(s: WorkTree): set<string>
  {
    (set p | p in s.files && '/' !in p) + (set d | d in s.dirs && d != "" && '/' !in d)
  }

  /** `os.scandir` of the root, in name order. */
  function RootEntries(s: WorkTree): (es: seq<DirEntry>)
    ensures |es| == |RootNames(s)|
    ensures forall i :: 0 <= i < |es| ==> es[i].name in RootNames(s) && (es[i].isFile <==> IsFile(s, es[i].name))
    ensures forall n :: n in RootNames(s) ==> exists i :: 0 <= i < |es| && es[i].name == n
  {
    var names := SortedSet(RootNames(s));
    var es := seq(|names|, i requires 0 <= i < |names| => DirEntry(names[i], names[i] in s.files));
    assert forall n :: n in RootNames(s) ==> exists i :: 0 <= i < |es| && es[i].name == n by {
      forall n | n in RootNames(s) ensures exists i :: 0 <= i < |es| && es[i].name == n {
        var i :| 0 <= i < |names| && names[i] == n;
        assert es[i].name == n;
      }
    }
    es
  }

  /** No name is listed twice. */
  lemma RootEntriesDistinct(s: WorkTree)
    ensures forall i, j :: 0 <= i < j < |RootEntries(s)| ==> RootEntries(s)[i].name != RootEntries(s)[j].name
  {
    var names := SortedSet(RootNames(s));
    assert forall i :: 0 <= i < |names| ==> RootEntries(s)[i].name == names[i];
  }

  /** The file entries of the root listing are exactly the files whose path
      has no `/`. */
  lemma RootFileEntry(s: WorkTree, p: Path)
    ensures (exists k :: 0 <= k < |RootEntries(s)| && RootEntries(s)[k].isFile && RootEntries(s)[k].name == p)
      <==> p in s.files && '/' !in p
  {
    var es := RootEntries(s);
    if p in s.files && '/' !in p {
      assert p in RootNames(s);
      var k :| 0 <= k < |es| && es[k].name == p;
      assert es[k].isFile;
    }
    if k :| 0 <= k < |es| && es[k].isFile && es[k].name == p {
      assert p in RootNames(s);
    }
  }

  // ---------------------------------------------------------------------
  // The working directory object the fixers hold.

  class GitWorkingDir {
    var files: map<Path, string>
    var dirs: set<Path>
    var index: map<Path, string>
    var branches: map<string, History>
    var remotes: map<string, History>
    var head: string

    function State(): WorkTree
      reads this
    {
      WorkTree(files, dirs, index, branches, remotes, head)
    }

    constructor (s: WorkTree)
      ensures State() == s
    {
      files, dirs, index := s.files, s.dirs, s.index;
      branches, remotes, head := s.branches, s.remotes, s.head;
    }

    /** Sets every field from a state value. */
    method Become(s: WorkTree)
      modifies this
      ensures State() == s
    {
      files, dirs, index := s.files, s.dirs, s.index;
      branches, remotes, head := s.branches, s.remotes, s.head;
    }

    method ReadFile(p: Path) returns (r: Option<string>)
      ensures r == (if p in files then Some(files[p]) else None)
    {
      r := if p in files then Some(files[p]) else None;
    }

    method Apply(r: Result<WorkTree>) returns (err: Option<string>)
      modifies this
      ensures r.Ok? ==> err == None && State() == r.value
      ensures r.Err? ==> err == Some(r.error) && State() == old(State())
    {
      if r.Ok? {
        Become(r.value);
        err := None;
      } else {
        err := Some(r.error);
      }
    }

    method Write(p: Path, text: string) returns (err: Option<string>)
      modifies this
      ensures var r := WriteFile(old(State()), p, text);
        (r.Ok? ==> err == None && State() == r.value) && (r.Err? ==> err == Some(r.error) && State() == old(State()))
    {
      err := Apply(WriteFile(State(), p, text));
    }

    method MakeDir(p: Path) returns (err: Option<string>)
      modifies this
      ensures var r := Mkdir(old(State()), p);
        (r.Ok? ==> err == None && State() == r.value) && (r.Err? ==> err == Some(r.error) && State() == old(State()))
    {
      err := Apply(Mkdir(State(), p));
    }

    method Stage(p: Path) returns (err: Option<string>)
      modifies this
      ensures var r := Add(old(State()), p);
        (r.Ok? ==> err == None && State() == r.value) && (r.Err? ==> err == Some(r.error) && State() == old(State()))
    {
      err := Apply(Add(State(), p));
    }

    method Remove(p: Path) returns (err: Option<string>)
      modifies this
      ensures var r := Rm(old(State()), p);
        (r.Ok? ==> err == None && State() == r.value) && (r.Err? ==> err == Some(r.error) && State() == old(State()))
    {
      err := Apply(Rm(State(), p));
    }

    method CommitAll(msg: string) returns (err: Option<string>)
      modifies this
      ensures var r := CommitIndex(old(State()), msg);
        (r.Ok? ==> err == None && State() == r.value) && (r.Err? ==> err == Some(r.error) && State() == old(State()))
    {
      err := Apply(CommitIndex(State(), msg));
    }
  }
}
