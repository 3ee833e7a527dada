/**
  The Maven rule: it corrects a snapshot or relative parent reference, then
  runs three `mvn versions:` goals and commits after each goal that touched
  `pom.xml`, with the goal's filtered output in the commit message.  The
  XML parser, Maven Central and the `mvn` runs are inputs (`MavenWorld`).
 */
module Maven {
  import opened Wrappers
  import opened Text
  import opened Git
  import opened Regex
  import opened Templates
  import opened FixersBase

  const PomFile: Path := "pom.xml"

  /** `is_maven_project`: the working copy has a `pom.xml` file at its root. */
  predicate IsMavenProject(s: WorkTree)
  {
    IsFile(s, PomFile)
  }

  // ---------------------------------------------------------------------
  // Cleaning up Maven's log.

  const DenyPrefixes: seq<string> := [
    "Scanning", "-", "Building", "artifact", "Downloading", "Downloaded",
    "BUILD", "Total", "Finished", "Minor version", "Reactor "]

  /** A log line worth keeping: not empty and not starting with a deny prefix. */
  predicate Allowed(line: string)
  {
    line != "" && forall k :: 0 <= k < |DenyPrefixes| ==> !StartsWith(line, DenyPrefixes[k])
  }

  /** `filter_line`, with its loop over the deny prefixes. */
  method FilterLine(line: string) returns (keep: bool)
    ensures keep <==> Allowed(line)
  {
    if line == "" {
      return false;
    }
    for i := 0 to |DenyPrefixes|
      invariant forall k :: 0 <= k < i ==> !StartsWith(line, DenyPrefixes[k])
    {
      if StartsWith(line, DenyPrefixes[i]) {
        return false;
      }
    }
    return true;
  }

  /** `map_line`: one leading `[LEVEL]` tag removed, then whitespace stripped. */
  function MapLine(line: string): (r: string)
    ensures r == [] || (!IsSpace(r[0]) && !IsSpace(r[|r| - 1]))
  {
    match LogLevelTag(line)
    case Some(n) => Strip(line[n..])
    case None => Strip(line)
  }

  /** A tag of capital letters in brackets is removed, whatever follows it. */
  lemma MapLineTagged(tag: string, rest: string)
    requires tag != [] && forall k :: 0 <= k < |tag| ==> IsUpper(tag[k])
    ensures MapLine("[" + tag + "]" + rest) == Strip(rest)
  {
    var line := "[" + tag + "]" + rest;
    assert line[|tag| + 1] == ']';
    forall k | 1 <= k < |tag| + 1 ensures IsUpper(line[k]) {
      assert line[k] == tag[k - 1];
    }
    assert TagOfLength(line, |tag| + 2);
    assert line[|tag| + 2..] == rest;
  }

  /** One line of output, mapped, if it passes the filter. */
  function KeepOne(line: string): (r: seq<string>)
    ensures |r| <= 1
    ensures r == [] <==> !Allowed(MapLine(line))
    ensures r != [] ==> r[0] == MapLine(line)
  {
    var m := MapLine(line);
    if Allowed(m) then [m] else []
  }

  /** The mapped lines that pass the filter, in their original order. */
  function KeptLines(lines: seq<string>): (r: seq<string>)
    ensures |r| <= |lines|
    ensures forall k :: 0 <= k < |r| ==> Allowed(r[k])
  {
    if lines == [] then [] else KeepOne(lines[0]) + KeptLines(lines[1..])
  }

  lemma {:induction false} KeptLinesAppend(a: seq<string>, b: seq<string>)
    ensures KeptLines(a + b) == KeptLines(a) + KeptLines(b)
    decreases |a|
  {
    if a != [] {
      assert (a + b)[1..] == a[1..] + b;
      assert (a + b)[0] == a[0];
      KeptLinesAppend(a[1..], b);
      assert KeptLines(a + b) == KeepOne(a[0]) + KeptLines(a[1..] + b);
    } else {
      assert a + b == b;
    }
  }

  lemma {:induction false} KeptLinesNoBoundary(lines: seq<string>)
    requires forall k :: 0 <= k < |lines| ==> NoBoundary(lines[k])
    ensures forall k :: 0 <= k < |KeptLines(lines)| ==> NoBoundary(KeptLines(lines)[k])
    decreases |lines|
  {
    if lines != [] {
      var l := lines[0];
      StripKeepsNoBoundary(l);
      match LogLevelTag(l) {
        case Some(n) =>
          forall j | 0 <= j < |l[n..]| ensures !IsLineBoundary(l[n..][j]) {
            assert l[n..][j] == l[n + j];
          }
          StripKeepsNoBoundary(l[n..]);
        case None =>
      }
      KeptLinesNoBoundary(lines[1..]);
    }
  }

  /** `filter_maven_output`, with `\n` as the line separator. */
  function FilterMavenOutput(output: string): string
  {
    Join("\n", KeptLines(SplitLines(output)))
  }

  /** The lines of the filtered output are exactly the kept lines of the
      input, in order. */
  lemma FilterOutputLines(output: string)
    ensures SplitLines(FilterMavenOutput(output)) == KeptLines(SplitLines(output))
  {
    var kept := KeptLines(SplitLines(output));
    if kept != [] {
      KeptLinesNoBoundary(SplitLines(output));
      SplitLinesJoin(kept);
    }
  }

  // ---------------------------------------------------------------------
  // The Maven log from the unit test of `filter_maven_output`.

  function Info(rest: string): string
  {
    "[" + InfoTag + "]" + rest
  }

  const InfoTag: string := "INFO"

  /** The one line of the test log that the filter keeps. */
  const SampleResult: string := "Updating parent from 1.10.0 to 2.0.0"

  /** The test log, line by line after its `[INFO]` tag, each line cut into
      pieces short enough to reason about one character at a time. */
  const SampleRow0: seq<string> := [" Scanning for projec", "ts..."]
  const SampleRow1: seq<string> := []
  const SampleRow2: seq<string> := [" -------------< com.", "github.ngeor:archety", "pe-quickstart-jdk8 >", "-------------"]
  const SampleRow3: seq<string> := [" Building archetype-", "quickstart-jdk8 2.9.", "0-SNAPSHOT"]
  const SampleRow4: seq<string> := [" -------------------", "-------[ maven-arche", "type ]--------------", "-------------"]
  const SampleRow5: seq<string> := []
  const SampleRow6: seq<string> := [" --- versions-maven-", "plugin:2.7:update-pa", "rent (default-cli) @", " archetype-quickstar", "t-jdk8 ---"]
  const SampleRow7: seq<string> := [" artifact com.github", ".ngeor:java: checkin", "g for updates from c", "entral"]
  const SampleRow8: seq<string> := [" Downloading from ce", "ntral: https://repo.", "maven.apache.org/mav", "en2/com/github/ngeor", "/java/2.0.0/java-2.0", ".0.pom"]
  const SampleRow9: seq<string> := [" Downloaded from cen", "tral: https://repo.m", "aven.apache.org/mave", "n2/com/github/ngeor/", "java/2.0.0/java-2.0.", "0.pom (13 kB at 57 k", "B/s)"]
  const SampleRow10: seq<string> := [" ", SampleResult]
  const SampleRow11: seq<string> := [" -------------------", "--------------------", "--------------------", "-------------"]
  const SampleRow12: seq<string> := [" BUILD SUCCESS"]
  const SampleRow13: seq<string> := [" -------------------", "--------------------", "--------------------", "-------------"]
  const SampleRow14: seq<string> := [" Total time:  6.119 ", "s"]
  const SampleRow15: seq<string> := [" Finished at: 2021-1", "0-10T09:50:07+02:00"]
  const SampleRow16: seq<string> := [" -------------------", "--------------------", "--------------------", "-------------"]

  const SampleChunks: seq<seq<string>> := [
    SampleRow0, SampleRow1, SampleRow2, SampleRow3, SampleRow4, SampleRow5,
    SampleRow6, SampleRow7, SampleRow8, SampleRow9, SampleRow10, SampleRow11,
    SampleRow12, SampleRow13, SampleRow14, SampleRow15, SampleRow16
  ]

  const SampleRests: seq<string> := seq(|SampleChunks|, k requires 0 <= k < |SampleChunks| => Concat(SampleChunks[k]))

  function SampleLines(): seq<string>
  {
    seq(|SampleRests|, k requires 0 <= k < |SampleRests| => Info(SampleRests[k]))
  }

  /** The log exactly as the test writes it: every line ends in a newline. */
  function SampleLog(): string
  {
    Join("\n", SampleLines()) + "\n"
  }

  /** Printable ASCII: a cheap check that rules out every line boundary. */
  predicate Printable(s: string)
  {
    forall j :: 0 <= j < |s| ==> ' ' <= s[j] <= '~'
  }

  lemma PrintableClean(s: string)
    requires Printable(s)
    ensures NoBoundary(s)
  {
  }

  lemma {:induction false} NoBoundaryConcat(chunks: seq<string>)
    requires forall k :: 0 <= k < |chunks| ==> NoBoundary(chunks[k])
    ensures NoBoundary(Concat(chunks))
    decreases |chunks|
  {
    if chunks != [] {
      NoBoundaryConcat(chunks[1..]);
      NoBoundaryAppend(chunks[0], Concat(chunks[1..]));
    }
  }

  lemma InfoLineClean(rest: string)
    requires NoBoundary(rest)
    ensures NoBoundary(Info(rest))
  {
    assert NoBoundary("[" + InfoTag + "]");
    NoBoundaryAppend("[" + InfoTag + "]", rest);
  }

  lemma SampleRow0Clean()
    ensures NoBoundary(Concat(SampleRow0))
  {
    PrintableClean(SampleRow0[0]);
    PrintableClean(SampleRow0[1]);
    NoBoundaryConcat(SampleRow0);
  }

  lemma SampleRow2Clean()
    ensures NoBoundary(Concat(SampleRow2))
  {
    PrintableClean(SampleRow2[0]);
    PrintableClean(SampleRow2[1]);
    PrintableClean(SampleRow2[2]);
    PrintableClean(SampleRow2[3]);
    NoBoundaryConcat(SampleRow2);
  }

  lemma SampleRow3Clean()
    ensures NoBoundary(Concat(SampleRow3))
  {
    PrintableClean(SampleRow3[0]);
    PrintableClean(SampleRow3[1]);
    PrintableClean(SampleRow3[2]);
    NoBoundaryConcat(SampleRow3);
  }

  lemma SampleRow4Clean()
    ensures NoBoundary(Concat(SampleRow4))
  {
    PrintableClean(SampleRow4[0]);
    PrintableClean(SampleRow4[1]);
    PrintableClean(SampleRow4[2]);
    PrintableClean(SampleRow4[3]);
    NoBoundaryConcat(SampleRow4);
  }

  lemma SampleRow6HeadClean()
    ensures forall i :: 0 <= i < 3 ==> NoBoundary(SampleRow6[i])
  {
    PrintableClean(SampleRow6[0]);
    PrintableClean(SampleRow6[1]);
    PrintableClean(SampleRow6[2]);
  }

  lemma SampleRow6TailClean()
    ensures forall i :: 3 <= i < 5 ==> NoBoundary(SampleRow6[i])
  {
    PrintableClean(SampleRow6[3]);
    PrintableClean(SampleRow6[4]);
  }

  lemma SampleRow6Clean()
    ensures NoBoundary(Concat(SampleRow6))
  {
    SampleRow6HeadClean();
    SampleRow6TailClean();
    NoBoundaryConcat(SampleRow6);
  }

  lemma SampleRow7Clean()
    ensures NoBoundary(Concat(SampleRow7))
  {
    PrintableClean(SampleRow7[0]);
    PrintableClean(SampleRow7[1]);
    PrintableClean(SampleRow7[2]);
    PrintableClean(SampleRow7[3]);
    NoBoundaryConcat(SampleRow7);
  }

  lemma SampleRow8HeadClean()
    ensures forall i :: 0 <= i < 3 ==> NoBoundary(SampleRow8[i])
  {
    PrintableClean(SampleRow8[0]);
    PrintableClean(SampleRow8[1]);
    PrintableClean(SampleRow8[2]);
  }

  lemma SampleRow8TailClean()
    ensures forall i :: 3 <= i < 6 ==> NoBoundary(SampleRow8[i])
  {
    PrintableClean(SampleRow8[3]);
    PrintableClean(SampleRow8[4]);
    PrintableClean(SampleRow8[5]);
  }

  lemma SampleRow8Clean()
    ensures NoBoundary(Concat(SampleRow8))
  {
    SampleRow8HeadClean();
    SampleRow8TailClean();
    NoBoundaryConcat(SampleRow8);
  }

  lemma SampleRow9HeadClean()
    ensures forall i :: 0 <= i < 3 ==> NoBoundary(SampleRow9[i])
  {
    PrintableClean(SampleRow9[0]);
    PrintableClean(SampleRow9[1]);
    PrintableClean(SampleRow9[2]);
  }

  lemma SampleRow9MiddleClean()
    ensures forall i :: 3 <= i < 5 ==> NoBoundary(SampleRow9[i])
  {
    PrintableClean(SampleRow9[3]);
    PrintableClean(SampleRow9[4]);
  }

  lemma SampleRow9TailClean()
    ensures forall i :: 5 <= i < 7 ==> NoBoundary(SampleRow9[i])
  {
    PrintableClean(SampleRow9[5]);
    PrintableClean(SampleRow9[6]);
  }

  lemma SampleRow9Clean()
    ensures NoBoundary(Concat(SampleRow9))
  {
    SampleRow9HeadClean();
    SampleRow9MiddleClean();
    SampleRow9TailClean();
    NoBoundaryConcat(SampleRow9);
  }

  lemma SampleRow10Clean()
    ensures NoBoundary(Concat(SampleRow10))
  {
    PrintableClean(SampleRow10[0]);
    PrintableClean(SampleRow10[1]);
    NoBoundaryConcat(SampleRow10);
  }

  lemma SampleRow11Clean()
    ensures NoBoundary(Concat(SampleRow11))
  {
    PrintableClean(SampleRow11[0]);
    PrintableClean(SampleRow11[1]);
    PrintableClean(SampleRow11[2]);
    PrintableClean(SampleRow11[3]);
    NoBoundaryConcat(SampleRow11);
  }

  lemma SampleRow12Clean()
    ensures NoBoundary(Concat(SampleRow12))
  {
    PrintableClean(SampleRow12[0]);
    NoBoundaryConcat(SampleRow12);
  }

  lemma SampleRow13Clean()
    ensures NoBoundary(Concat(SampleRow13))
  {
    PrintableClean(SampleRow13[0]);
    PrintableClean(SampleRow13[1]);
    PrintableClean(SampleRow13[2]);
    PrintableClean(SampleRow13[3]);
    NoBoundaryConcat(SampleRow13);
  }

  lemma SampleRow14Clean()
    ensures NoBoundary(Concat(SampleRow14))
  {
    PrintableClean(SampleRow14[0]);
    PrintableClean(SampleRow14[1]);
    NoBoundaryConcat(SampleRow14);
  }

  lemma SampleRow15Clean()
    ensures NoBoundary(Concat(SampleRow15))
  {
    PrintableClean(SampleRow15[0]);
    PrintableClean(SampleRow15[1]);
    NoBoundaryConcat(SampleRow15);
  }

  lemma SampleRow16Clean()
    ensures NoBoundary(Concat(SampleRow16))
  {
    PrintableClean(SampleRow16[0]);
    PrintableClean(SampleRow16[1]);
    PrintableClean(SampleRow16[2]);
    PrintableClean(SampleRow16[3]);
    NoBoundaryConcat(SampleRow16);
  }

  lemma SampleHeadRowsClean()
    ensures forall k :: 0 <= k < 9 ==> NoBoundary(SampleRests[k])
  {
    forall k | 0 <= k < 9 ensures NoBoundary(SampleRests[k]) {
      if k == 0 { SampleRow0Clean(); }
      if k == 1 { NoBoundaryConcat(SampleRow1); }
      if k == 2 { SampleRow2Clean(); }
      if k == 3 { SampleRow3Clean(); }
      if k == 4 { SampleRow4Clean(); }
      if k == 5 { NoBoundaryConcat(SampleRow5); }
      if k == 6 { SampleRow6Clean(); }
      if k == 7 { SampleRow7Clean(); }
      if k == 8 { SampleRow8Clean(); }
    }
  }

  lemma SampleTailRowsClean()
    ensures forall k :: 9 <= k < 17 ==> NoBoundary(SampleRests[k])
  {
    forall k | 9 <= k < 17 ensures NoBoundary(SampleRests[k]) {
      if k == 9 { SampleRow9Clean(); }
      if k == 10 { SampleRow10Clean(); }
      if k == 11 { SampleRow11Clean(); }
      if k == 12 { SampleRow12Clean(); }
      if k == 13 { SampleRow13Clean(); }
      if k == 14 { SampleRow14Clean(); }
      if k == 15 { SampleRow15Clean(); }
      if k == 16 { SampleRow16Clean(); }
    }
  }

  lemma SampleLinesClean()
    ensures forall k :: 0 <= k < |SampleLines()| ==> NoBoundary(SampleLines()[k])
  {
    SampleHeadRowsClean();
    SampleTailRowsClean();
    forall k | 0 <= k < |SampleLines()| ensures NoBoundary(SampleLines()[k]) {
      InfoLineClean(SampleRests[k]);
    }
  }

  /** An `[INFO]` line whose text starts with a deny prefix is dropped. */
  lemma RejectedInfoLine(rest: string, i: nat)
    requires |rest| >= 2 && rest[0] == ' ' && !IsSpace(rest[1]) && !IsSpace(rest[|rest| - 1])
    requires i < |DenyPrefixes| && StartsWith(rest[1..], DenyPrefixes[i])
    ensures KeepOne(Info(rest)) == []
  {
    assert forall k :: 0 <= k < |InfoTag| ==> IsUpper(InfoTag[k]);
    MapLineTagged(InfoTag, rest);
    assert MapLine(Info(rest)) == Strip(rest);
    assert rest == rest[..1] + rest[1..];
    assert rest[..1] == " ";
    StripLeadingSpace(rest[1..]);
    assert MapLine(Info(rest)) == rest[1..];
    assert !Allowed(rest[1..]);
  }

  /** A bare `[INFO]` line maps to the empty line, which is dropped. */
  lemma EmptyInfoLine()
    ensures KeepOne(Info("")) == []
  {
    MapLineTagged(InfoTag, "");
  }

  lemma {:induction false} ConcatLast(chunks: seq<string>)
    requires chunks != [] && chunks[|chunks| - 1] != []
    ensures Concat(chunks) != []
    ensures Concat(chunks)[|Concat(chunks)| - 1] == chunks[|chunks| - 1][|chunks[|chunks| - 1]| - 1]
    decreases |chunks|
  {
    if |chunks| > 1 {
      ConcatLast(chunks[1..]);
    } else {
      assert Concat(chunks) == chunks[0] + "";
    }
  }

  /** An `[INFO]` line given in pieces is dropped when its first piece starts
      with a space and a deny prefix and its last piece ends in a non-space. */
  lemma RejectedChunks(chunks: seq<string>, i: nat)
    requires chunks != [] && |chunks[0]| >= 2 && chunks[0][0] == ' ' && !IsSpace(chunks[0][1])
    requires i < |DenyPrefixes| && StartsWith(chunks[0][1..], DenyPrefixes[i])
    requires chunks[|chunks| - 1] != [] && !IsSpace(chunks[|chunks| - 1][|chunks[|chunks| - 1]| - 1])
    ensures KeepOne(Info(Concat(chunks))) == []
  {
    var rest := Concat(chunks);
    var p := DenyPrefixes[i];
    assert rest == chunks[0] + Concat(chunks[1..]);
    ConcatLast(chunks);
    assert rest[1..][..|p|] == chunks[0][1..][..|p|];
    RejectedInfoLine(rest, i);
  }

  /** The first characters of the deny prefixes. */
  lemma DenyFirstChars()
    ensures forall k :: 0 <= k < |DenyPrefixes| ==> DenyPrefixes[k] != [] && DenyPrefixes[k][0] in "S-BaDTFMR"
  {
    forall k | 0 <= k < |DenyPrefixes| ensures DenyPrefixes[k] != [] && DenyPrefixes[k][0] in "S-BaDTFMR" {
      if k == 0 { assert DenyPrefixes[k][0] == 'S'; }
      if k == 1 { assert DenyPrefixes[k][0] == '-'; }
      if k == 2 { assert DenyPrefixes[k][0] == 'B'; }
      if k == 3 { assert DenyPrefixes[k][0] == 'a'; }
      if k == 4 { assert DenyPrefixes[k][0] == 'D'; }
      if k == 5 { assert DenyPrefixes[k][0] == 'D'; }
      if k == 6 { assert DenyPrefixes[k][0] == 'B'; }
      if k == 7 { assert DenyPrefixes[k][0] == 'T'; }
      if k == 8 { assert DenyPrefixes[k][0] == 'F'; }
      if k == 9 { assert DenyPrefixes[k][0] == 'M'; }
      if k == 10 { assert DenyPrefixes[k][0] == 'R'; }
    }
  }

  lemma SampleResultAllowed()
    ensures Allowed(SampleResult)
  {
    DenyFirstChars();
    var x := SampleResult;
    assert x[0] == 'U';
    forall k | 0 <= k < |DenyPrefixes| ensures !StartsWith(x, DenyPrefixes[k]) {
      assert DenyPrefixes[k][0] != x[0];
    }
  }

  lemma SampleRow10Text()
    ensures Concat(SampleChunks[10]) == " " + SampleResult
  {
    var c := SampleRow10;
    assert SampleChunks[10] == c;
    assert c[1..] == [SampleResult] && c[1..][1..] == [];
    assert Concat(c[1..][1..]) == "";
    assert Concat(c[1..]) == SampleResult + "" == SampleResult;
  }

  lemma SampleResultKept()
    ensures KeepOne(Info(Concat(SampleChunks[10]))) == [SampleResult]
  {
    SampleRow10Text();
    var c := SampleChunks[10];
    MapLineTagged(InfoTag, " " + SampleResult);
    StripLeadingSpace(SampleResult);
    assert MapLine(Info(Concat(c))) == SampleResult;
    SampleResultAllowed();
  }

  lemma SampleRow0Rejected()
    ensures KeepOne(Info(Concat(SampleChunks[0]))) == []
  {
    assert SampleChunks[0] == SampleRow0;
    RejectedChunks(SampleRow0, 0);
  }

  lemma SampleRow2Rejected()
    ensures KeepOne(Info(Concat(SampleChunks[2]))) == []
  {
    assert SampleChunks[2] == SampleRow2;
    RejectedChunks(SampleRow2, 1);
  }

  lemma SampleRow3Rejected()
    ensures KeepOne(Info(Concat(SampleChunks[3]))) == []
  {
    assert SampleChunks[3] == SampleRow3;
    RejectedChunks(SampleRow3, 2);
  }

  lemma SampleRow4Rejected()
    ensures KeepOne(Info(Concat(SampleChunks[4]))) == []
  {
    assert SampleChunks[4] == SampleRow4;
    RejectedChunks(SampleRow4, 1);
  }

  lemma SampleRow6Rejected()
    ensures KeepOne(Info(Concat(SampleChunks[6]))) == []
  {
    assert SampleChunks[6] == SampleRow6;
    RejectedChunks(SampleRow6, 1);
  }

  lemma SampleRow7Rejected()
    ensures KeepOne(Info(Concat(SampleChunks[7]))) == []
  {
    assert SampleChunks[7] == SampleRow7;
    RejectedChunks(SampleRow7, 3);
  }

  lemma SampleRow8Rejected()
    ensures KeepOne(Info(Concat(SampleChunks[8]))) == []
  {
    assert SampleChunks[8] == SampleRow8;
    RejectedChunks(SampleRow8, 4);
  }

  lemma SampleRow9Rejected()
    ensures KeepOne(Info(Concat(SampleChunks[9]))) == []
  {
    assert SampleChunks[9] == SampleRow9;
    RejectedChunks(SampleRow9, 5);
  }

  lemma SampleRow11Rejected()
    ensures KeepOne(Info(Concat(SampleChunks[11]))) == []
  {
    assert SampleChunks[11] == SampleRow11;
    RejectedChunks(SampleRow11, 1);
  }

  lemma SampleRow12Rejected()
    ensures KeepOne(Info(Concat(SampleChunks[12]))) == []
  {
    assert SampleChunks[12] == SampleRow12;
    RejectedChunks(SampleRow12, 6);
  }

  lemma SampleRow13Rejected()
    ensures KeepOne(Info(Concat(SampleChunks[13]))) == []
  {
    assert SampleChunks[13] == SampleRow13;
    RejectedChunks(SampleRow13, 1);
  }

  lemma SampleRow14Rejected()
    ensures KeepOne(Info(Concat(SampleChunks[14]))) == []
  {
    assert SampleChunks[14] == SampleRow14;
    RejectedChunks(SampleRow14, 7);
  }

  lemma SampleRow15Rejected()
    ensures KeepOne(Info(Concat(SampleChunks[15]))) == []
  {
    assert SampleChunks[15] == SampleRow15;
    RejectedChunks(SampleRow15, 8);
  }

  lemma SampleRow16Rejected()
    ensures KeepOne(Info(Concat(SampleChunks[16]))) == []
  {
    assert SampleChunks[16] == SampleRow16;
    RejectedChunks(SampleRow16, 1);
  }

  /** The first lines of the test log are dropped. */
  lemma SampleOpeningRejected()
    ensures forall k :: 0 <= k < 5 ==> KeepOne(Info(Concat(SampleChunks[k]))) == []
  {
    forall k | 0 <= k < 5 ensures KeepOne(Info(Concat(SampleChunks[k]))) == [] {
      if k == 0 { SampleRow0Rejected(); }
      if k == 1 { assert SampleChunks[k] == []; EmptyInfoLine(); }
      if k == 2 { SampleRow2Rejected(); }
      if k == 3 { SampleRow3Rejected(); }
      if k == 4 { SampleRow4Rejected(); }
    }
  }

  /** The lines up to the parent update are dropped. */
  lemma SampleHeadRejected()
    ensures forall k :: 5 <= k < 10 ==> KeepOne(Info(Concat(SampleChunks[k]))) == []
  {
    forall k | 5 <= k < 10 ensures KeepOne(Info(Concat(SampleChunks[k]))) == [] {
      if k == 5 { assert SampleChunks[k] == []; EmptyInfoLine(); }
      if k == 6 { SampleRow6Rejected(); }
      if k == 7 { SampleRow7Rejected(); }
      if k == 8 { SampleRow8Rejected(); }
      if k == 9 { SampleRow9Rejected(); }
    }
  }

  /** Every line of the test log after the parent update is dropped. */
  lemma SampleTailRejected()
    ensures forall k :: 11 <= k < 17 ==> KeepOne(Info(Concat(SampleChunks[k]))) == []
  {
    forall k | 11 <= k < 17 ensures KeepOne(Info(Concat(SampleChunks[k]))) == [] {
      if k == 11 { SampleRow11Rejected(); }
      if k == 12 { SampleRow12Rejected(); }
      if k == 13 { SampleRow13Rejected(); }
      if k == 14 { SampleRow14Rejected(); }
      if k == 15 { SampleRow15Rejected(); }
      if k == 16 { SampleRow16Rejected(); }
    }
  }

  /** Of the lines of the test log, only the parent update is kept. */
  lemma SampleKeptLines()
    ensures KeptLines(SampleLines()) == [SampleResult]
  {
    var lines := SampleLines();
    SampleOpeningRejected();
    SampleHeadRejected();
    SampleTailRejected();
    SampleResultKept();
    assert |lines| == 17;
    forall k | 0 <= k < |lines| ensures lines[k] == Info(Concat(SampleChunks[k])) {
      assert lines[k] == Info(SampleRests[k]);
    }
    KeptOnlyOne(lines, 10);
  }

  /** The unit test of `filter_maven_output`: of the whole log, only the
      line about the parent update survives. */
  lemma SampleOutput()
    ensures FilterMavenOutput(SampleLog()) == SampleResult
  {
    var lines := SampleLines();
    SampleLinesClean();
    assert |lines| == |SampleRests|;
    SplitLinesJoinNewline(lines);
    assert SplitLines(SampleLog()) == lines;
    SampleKeptLines();
    assert Join("\n", [SampleResult]) == SampleResult;
  }

  /** When every line but one is dropped, the kept lines are what that one line gives. */
  lemma {:induction false} KeptOnlyOne(lines: seq<string>, m: nat)
    requires m < |lines|
    requires forall k :: 0 <= k < |lines| && k != m ==> KeepOne(lines[k]) == []
    ensures KeptLines(lines) == KeepOne(lines[m])
    decreases |lines|
  {
    var tail := lines[1..];
    assert KeptLines(lines) == KeepOne(lines[0]) + KeptLines(tail);
    if m == 0 {
      forall k | 0 <= k < |tail| ensures KeepOne(tail[k]) == [] {
        assert tail[k] == lines[k + 1];
      }
      KeptNone(tail);
    } else {
      forall k | 0 <= k < |tail| && k != m - 1 ensures KeepOne(tail[k]) == [] {
        assert tail[k] == lines[k + 1];
      }
      KeptOnlyOne(tail, m - 1);
      assert tail[m - 1] == lines[m];
    }
  }

  lemma {:induction false} KeptNone(lines: seq<string>)
    requires forall k :: 0 <= k < |lines| ==> KeepOne(lines[k]) == []
    ensures KeptLines(lines) == []
    decreases |lines|
  {
    if lines != [] {
      KeptNone(lines[1..]);
    }
  }

  // ---------------------------------------------------------------------
  // The rule.

  /** The `<parent>` element of `pom.xml`: the text of its group, artifact
      and version elements, and its optional `<relativePath>` element. An
      element written with no text (`<version/>`) has text `None`, as
      ElementTree reads it. */
  datatype PomParent = PomParent(groupId: Option<string>, artifactId: Option<string>, version: Option<string>, relativePath: Option<Option<string>>)

  /** `pom.xml` as the XML parser reads it: a parse error, or the parent
      reference when the parent element has a group, an artifact and a version. */
  datatype Pom = Malformed(error: string) | Parsed(parent: Option<PomParent>)

  /** One `mvn` goal: its exit code, its combined output, and the new
      contents of `pom.xml` when the goal rewrote the file. */
  datatype MvnRun = MvnRun(exitCode: int, stdout: string, rewritten: Option<string>)

  const CorrectionMessage: string := "Corrected parent pom reference"
  const LatestReleasesTitle: string := "Using latest releases"
  const PropertiesTitle: string := "Updated pom properties"
  const ParentTitle: string := "Updated parent pom"

  /** `os.path.getmtime` on a `pom.xml` that is not there. */
  const NoPomError: string := "FileNotFoundError: pom.xml"

  /** `.startswith` on the text of an empty `<relativePath/>`. */
  const RelativePathNoText: string := "AttributeError: 'NoneType' object has no attribute 'startswith'"
  /** `"SNAPSHOT" in` the text of an empty `<version/>`. */
  const VersionNoText: string := "TypeError: argument of type 'NoneType' is not iterable"
  /** `.replace` on the text of an empty `<groupId/>` in the release lookup. */
  const GroupIdNoText: string := "AttributeError: 'NoneType' object has no attribute 'replace'"

  /** Python's `str` of an element text, as an f-string renders it. */
  function PyText(t: Option<string>): (r: string)
    ensures t.Some? ==> r == t.value
    ensures t.None? ==> r == "None"
  {
    match t
    case Some(v) => v
    case None => "None"
  }

  /** A `relativePath` pointing outside the repository. */
  predicate DropsRelativePath(p: PomParent)
  {
    p.relativePath.Some? && p.relativePath.value.Some? && StartsWith(p.relativePath.value.value, "../")
  }

  predicate IsSnapshot(p: PomParent)
  {
    p.version.Some? && Contains(p.version.value, "SNAPSHOT")
  }

  /** `get_latest_artifact_version` on the parent's ids: the group's text is
      split at its dots, so a group with no text raises; the artifact's text
      goes into the URL as Python renders it. */
  function LatestFor(p: PomParent, latest: (string, string) -> Result<string>): (r: Result<string>)
    ensures p.groupId.None? ==> r == Err(GroupIdNoText)
    ensures p.groupId.Some? ==> r == latest(p.groupId.value, PyText(p.artifactId))
  {
    match p.groupId
    case None => Err(GroupIdNoText)
    case Some(g) => latest(g, PyText(p.artifactId))
  }

  /** The corrected parent reference, if the reference needs correcting: an
      outside `relativePath` is dropped and a snapshot version becomes the
      latest release, whose lookup may fail. An empty `<relativePath/>` or
      `<version/>` raises before anything is corrected. */
  function CorrectParent(p: PomParent, latest: (string, string) -> Result<string>): (r: Option<Result<PomParent>>)
    ensures p.relativePath == Some(None) ==> r == Some(Err(RelativePathNoText))
    ensures p.relativePath != Some(None) && p.version.None? ==> r == Some(Err(VersionNoText))
    ensures r.None? <==>
      p.relativePath != Some(None) && p.version.Some? && !DropsRelativePath(p) && !IsSnapshot(p)
    ensures r.Some? && r.value.Err? <==>
      p.relativePath == Some(None) || p.version.None? || (IsSnapshot(p) && LatestFor(p, latest).Err?)
    ensures r.Some? && r.value.Err? && p.relativePath != Some(None) && p.version.Some? ==>
      r.value == Err(LatestFor(p, latest).error)
    ensures r.Some? && r.value.Ok? ==>
      var q := r.value.value;
      && q.groupId == p.groupId && q.artifactId == p.artifactId
      && q.version == (if IsSnapshot(p) then Some(LatestFor(p, latest).value) else p.version)
      && q.relativePath == (if DropsRelativePath(p) then None else p.relativePath)
  {
    if p.relativePath == Some(None) then Some(Err(RelativePathNoText))
    else if p.version.None? then Some(Err(VersionNoText))
    else
      var path := if DropsRelativePath(p) then None else p.relativePath;
      if IsSnapshot(p) then
        match LatestFor(p, latest)
        case Err(e) => Some(Err(e))
        case Ok(v) => Some(Ok(p.(version := Some(v), relativePath := path)))
      else if DropsRelativePath(p) then Some(Ok(p.(relativePath := path)))
      else None
  }

  /** A corrected reference needs no further correction, as long as the
      latest release is not itself a snapshot. */
  lemma CorrectParentSettles(p: PomParent, latest: (string, string) -> Result<string>)
    requires CorrectParent(p, latest).Some? && CorrectParent(p, latest).value.Ok?
    requires IsSnapshot(p) ==> !Contains(LatestFor(p, latest).value, "SNAPSHOT")
    ensures CorrectParent(CorrectParent(p, latest).value.value, latest).None?
  {
  }

  /** The usual Spring Boot parent, with an empty `<relativePath/>`, makes
      the correction raise even when nothing would need correcting. */
  lemma EmptyRelativePathRaises(latest: (string, string) -> Result<string>)
    ensures var p := PomParent(Some("org.springframework.boot"), Some("spring-boot-starter-parent"), Some("3.0.0"), Some(None));
      !IsSnapshot(p) && CorrectParent(p, latest) == Some(Err(RelativePathNoText))
  {
  }

  /** Whole-rule view of the empty elements: a parent with an empty
      `<relativePath/>` or `<version/>` makes the rule raise before any `mvn`
      goal runs, with the working copy untouched. */
  lemma EmptyElementStopsRule(world: MavenWorld, s: WorkTree, p: PomParent)
    requires IsMavenProject(s)
    requires world.parse(s.files[PomFile]) == Parsed(Some(p))
    requires p.relativePath == Some(None) || p.version.None?
    ensures world.Step(s) == Effect(Raised(if p.relativePath == Some(None) then RelativePathNoText else VersionNoText), s)
  {
  }

  /** The commit message of a goal that changed `pom.xml`: the title, a blank
      line, and Maven's cleaned-up output. */
  function StepMessage(title: string, stdout: string): (m: string)
    ensures StartsWith(m, title + "\n\n")
  {
    title + "\n\n" + FilterMavenOutput(Strip(stdout)) + "\n"
  }

  /** Everything outside the repository the rule depends on: the XML parser,
      Maven Central, the XML writer, sortpom and the three `versions:` goals,
      each a function of the contents of `pom.xml`. */
  datatype MavenWorld = MavenWorld(
    parse: string -> Pom,
    latestRelease: (string, string) -> Result<string>,
    serialize: (string, PomParent) -> string,
    sortPom: string -> string,
    useLatestReleases: string -> MvnRun,
    updateProperties: string -> MvnRun,
    updateParent: string -> MvnRun)
  {
    /** `remove_snapshot_parent_pom`. */
    function Correction(s: WorkTree): Effect
    {
      if PomFile !in s.files then Effect(Raised(NoPomError), s)
      else
        var text := s.files[PomFile];
        match parse(text)
        case Malformed(e) => Effect(Raised(e), s)
        case Parsed(None) => Effect(Done([]), s)
        case Parsed(Some(p)) =>
          match CorrectParent(p, latestRelease)
          case None => Effect(Done([]), s)
          case Some(Err(e)) => Effect(Raised(e), s)
          case Some(Ok(q)) => WriteAddCommit(s, PomFile, sortPom(serialize(text, q)), CorrectionMessage)
    }

    /** `run_step`: run a goal; a failed goal raises its output, a goal that
        rewrote `pom.xml` is committed with the sorted file. */
    function Goal(s: WorkTree, title: string, goal: string -> MvnRun): Effect
    {
      if PomFile !in s.files then Effect(Raised(NoPomError), s)
      else
        var run := goal(s.files[PomFile]);
        if run.exitCode != 0 then
          Effect(Raised(Strip(run.stdout)), Touched(s, run))
        else
          match run.rewritten
          case None => Effect(Done([]), s)
          case Some(t) => WriteAddCommit(s, PomFile, sortPom(t), StepMessage(title, run.stdout))
    }

    /** `MavenFix.run`: the correction, then the three goals in order; the
        first step that raises ends the run. */
    function Step(s: WorkTree): Effect
    {
      if !IsMavenProject(s) then Effect(Done([]), s)
      else
        var e0 := Correction(s);
        if e0.outcome.Raised? then e0
        else
          var e1 := Goal(e0.after, LatestReleasesTitle, useLatestReleases);
          if e1.outcome.Raised? then e1
          else
            var e2 := Goal(e1.after, PropertiesTitle, updateProperties);
            if e2.outcome.Raised? then e2
            else
              var e3 := Goal(e2.after, ParentTitle, updateParent);
              if e3.outcome.Raised? then e3
              else Effect(Done(e0.outcome.changes + e1.outcome.changes + e2.outcome.changes + e3.outcome.changes), e3.after)
    }
  }

  /** The working copy after a goal that may have rewritten `pom.xml`. */
  function Touched(s: WorkTree, run: MvnRun): WorkTree
  {
    match run.rewritten
    case None => s
    case Some(t) => s.(files := s.files[PomFile := t])
  }

  /** The correction commits at most its one message. */
  lemma CorrectionLaw(world: MavenWorld, s: WorkTree)
    ensures Reported(s, world.Correction(s))
    ensures world.Correction(s).outcome.Done? ==> world.Correction(s).outcome.changes in {[], [CorrectionMessage]}
  {
    if PomFile in s.files {
      var text := s.files[PomFile];
      match world.parse(text)
      case Malformed(_) =>
      case Parsed(None) => NothingReported(s);
      case Parsed(Some(p)) =>
        match CorrectParent(p, world.latestRelease)
        case None => NothingReported(s);
        case Some(Err(_)) =>
        case Some(Ok(q)) =>
          WriteAddCommitLaw(s, PomFile, world.sortPom(world.serialize(text, q)), CorrectionMessage);
    }
  }

  /** A goal commits at most its one message; a failed goal raises Maven's
      output and commits nothing, whatever it did to `pom.xml`. */
  lemma GoalLaw(world: MavenWorld, s: WorkTree, title: string, goal: string -> MvnRun)
    ensures Reported(s, world.Goal(s, title, goal))
    ensures world.Goal(s, title, goal).outcome.Done? ==>
      world.Goal(s, title, goal).outcome.changes == [] ||
      world.Goal(s, title, goal).outcome.changes == [StepMessage(title, goal(s.files[PomFile]).stdout)]
    ensures PomFile in s.files && goal(s.files[PomFile]).exitCode != 0 ==>
      world.Goal(s, title, goal).outcome == Raised(Strip(goal(s.files[PomFile]).stdout))
      && world.Goal(s, title, goal).after.branches == s.branches
    ensures PomFile in s.files && goal(s.files[PomFile]).exitCode == 0 && goal(s.files[PomFile]).rewritten.None? ==>
      world.Goal(s, title, goal) == Effect(Done([]), s)
  {
    if PomFile in s.files {
      var run := goal(s.files[PomFile]);
      if run.exitCode == 0 {
        match run.rewritten
        case None => NothingReported(s);
        case Some(t) => WriteAddCommitLaw(s, PomFile, world.sortPom(t), StepMessage(title, run.stdout));
      }
    }
  }

  /** A commit message the rule can report. */
  predicate MavenMessage(c: string)
  {
    c == CorrectionMessage || StartsWith(c, LatestReleasesTitle + "\n\n")
    || StartsWith(c, PropertiesTitle + "\n\n") || StartsWith(c, ParentTitle + "\n\n")
  }

  /** The rule keeps the reporting contract and makes at most four commits:
      the correction, then one per goal; outside a Maven project it does nothing. */
  lemma MavenLaw(world: MavenWorld, s: WorkTree)
    ensures Reported(s, world.Step(s))
    ensures world.Step(s).outcome.Done? ==> |world.Step(s).outcome.changes| <= 4
    ensures !IsMavenProject(s) ==> world.Step(s) == Effect(Done([]), s)
  {
    if !IsMavenProject(s) {
      NothingReported(s);
      return;
    }
    var e0 := world.Correction(s);
    CorrectionLaw(world, s);
    if e0.outcome.Raised? {
      return;
    }
    var e1 := world.Goal(e0.after, LatestReleasesTitle, world.useLatestReleases);
    GoalLaw(world, e0.after, LatestReleasesTitle, world.useLatestReleases);
    if e1.outcome.Raised? {
      return;
    }
    var e2 := world.Goal(e1.after, PropertiesTitle, world.updateProperties);
    GoalLaw(world, e1.after, PropertiesTitle, world.updateProperties);
    if e2.outcome.Raised? {
      return;
    }
    var e3 := world.Goal(e2.after, ParentTitle, world.updateParent);
    GoalLaw(world, e2.after, ParentTitle, world.updateParent);
    if e3.outcome.Raised? {
      return;
    }
    var c0, c1, c2, c3 := e0.outcome.changes, e1.outcome.changes, e2.outcome.changes, e3.outcome.changes;
    assert world.Step(s) == Effect(Done(c0 + c1 + c2 + c3), e3.after);
    if Clean(s) {
      AppendedTrans(s, e0.after, e1.after, c0, c1);
      AppendedTrans(s, e1.after, e2.after, c0 + c1, c2);
      AppendedTrans(s, e2.after, e3.after, c0 + c1 + c2, c3);
    }
  }

  /** Each reported change is the correction message or names its goal. */
  lemma MavenMessages(world: MavenWorld, s: WorkTree)
    ensures world.Step(s).outcome.Done? ==> AllMaven(world.Step(s).outcome.changes)
  {
    if !IsMavenProject(s) {
      return;
    }
    var e0 := world.Correction(s);
    CorrectionLaw(world, s);
    if e0.outcome.Raised? {
      return;
    }
    var e1 := world.Goal(e0.after, LatestReleasesTitle, world.useLatestReleases);
    GoalNamed(world, e0.after, LatestReleasesTitle, world.useLatestReleases);
    if e1.outcome.Raised? {
      return;
    }
    var e2 := world.Goal(e1.after, PropertiesTitle, world.updateProperties);
    GoalNamed(world, e1.after, PropertiesTitle, world.updateProperties);
    if e2.outcome.Raised? {
      return;
    }
    var e3 := world.Goal(e2.after, ParentTitle, world.updateParent);
    GoalNamed(world, e2.after, ParentTitle, world.updateParent);
    if e3.outcome.Raised? {
      return;
    }
    AllMavenFour(e0.outcome.changes, e1.outcome.changes, e2.outcome.changes, e3.outcome.changes);
  }

  /** The four steps' changes together, each step's naming its step. */
  lemma AllMavenFour(c0: seq<string>, c1: seq<string>, c2: seq<string>, c3: seq<string>)
    requires c0 in {[], [CorrectionMessage]}
    requires |c1| <= 1 && (c1 != [] ==> StartsWith(c1[0], LatestReleasesTitle + "\n\n"))
    requires |c2| <= 1 && (c2 != [] ==> StartsWith(c2[0], PropertiesTitle + "\n\n"))
    requires |c3| <= 1 && (c3 != [] ==> StartsWith(c3[0], ParentTitle + "\n\n"))
    ensures AllMaven(c0 + c1 + c2 + c3)
  {
    assert AllMaven(c0);
    assert AllMaven(c1);
    assert AllMaven(c2);
    assert AllMaven(c3);
    AllMavenAppend(c0, c1);
    AllMavenAppend(c0 + c1, c2);
    AllMavenAppend(c0 + c1 + c2, c3);
  }

  predicate AllMaven(cs: seq<string>)
  {
    forall k :: 0 <= k < |cs| ==> MavenMessage(cs[k])
  }

  lemma AllMavenAppend(a: seq<string>, b: seq<string>)
    requires AllMaven(a) && AllMaven(b)
    ensures AllMaven(a + b)
  {
    forall k | 0 <= k < |a + b| ensures MavenMessage((a + b)[k]) {
      if k < |a| {
        assert (a + b)[k] == a[k];
      } else {
        assert (a + b)[k] == b[k - |a|];
      }
    }
  }

  /** A goal's one change, if any, starts with the goal's title and a blank line. */
  lemma GoalNamed(world: MavenWorld, s: WorkTree, title: string, goal: string -> MvnRun)
    ensures world.Goal(s, title, goal).outcome.Done? ==>
      var cs := world.Goal(s, title, goal).outcome.changes;
      |cs| <= 1 && (cs != [] ==> StartsWith(cs[0], title + "\n\n"))
  {
    if PomFile in s.files {
      var run := goal(s.files[PomFile]);
      if run.exitCode == 0 && run.rewritten.Some? {
        WriteAddCommitLaw(s, PomFile, world.sortPom(run.rewritten.value), StepMessage(title, run.stdout));
      }
    }
  }

  /** A Maven project whose parent needs no correction and whose goals all
      leave `pom.xml` alone is left exactly as it was, with nothing reported. */
  lemma MavenQuiet(world: MavenWorld, s: WorkTree)
    requires IsMavenProject(s)
    requires world.parse(s.files[PomFile]).Parsed?
    requires var pom := world.parse(s.files[PomFile]);
      pom.parent.Some? ==> CorrectParent(pom.parent.value, world.latestRelease).None?
    requires var text := s.files[PomFile];
      && world.useLatestReleases(text) == MvnRun(0, world.useLatestReleases(text).stdout, None)
      && world.updateProperties(text) == MvnRun(0, world.updateProperties(text).stdout, None)
      && world.updateParent(text) == MvnRun(0, world.updateParent(text).stdout, None)
    ensures world.Step(s) == Effect(Done([]), s)
  {
    GoalLaw(world, s, LatestReleasesTitle, world.useLatestReleases);
    GoalLaw(world, s, PropertiesTitle, world.updateProperties);
    GoalLaw(world, s, ParentTitle, world.updateParent);
  }

  /** `MavenFix`: the rule as the driver holds it, recording its commit
      messages in `commits`. */
  class MavenFix {
    const world: MavenWorld
    var commits: seq<string>

    constructor (world: MavenWorld)
      ensures this.world == world && commits == []
    {
      this.world := world;
      commits := [];
    }

    method RemoveSnapshotParentPom(g: GitWorkingDir) returns (err: Option<string>)
      modifies this, g
      ensures var e := world.Correction(old(g.State()));
        && g.State() == e.after
        && (err.None? <==> e.outcome.Done?)
        && (err.Some? ==> e.outcome == Raised(err.value))
        && commits == old(commits) + (if e.outcome.Done? then e.outcome.changes else [])
    {
      var pom := g.ReadFile(PomFile);
      if pom.None? {
        return Some(NoPomError);
      }
      var text := pom.value;
      match world.parse(text) {
        case Malformed(e) =>
          return Some(e);
        case Parsed(None) =>
          return None;
        case Parsed(Some(p)) =>
          match CorrectParent(p, world.latestRelease) {
            case None =>
              return None;
            case Some(Err(e)) =>
              return Some(e);
            case Some(Ok(q)) =>
              err := CommitPom(g, world.sortPom(world.serialize(text, q)), CorrectionMessage);
          }
      }
    }

    /** Write, stage and commit `pom.xml`, recording the message. */
    method CommitPom(g: GitWorkingDir, text: string, msg: string) returns (err: Option<string>)
      modifies this, g
      ensures var e := WriteAddCommit(old(g.State()), PomFile, text, msg);
        && g.State() == e.after
        && (err.None? <==> e.outcome.Done?)
        && (err.Some? ==> e.outcome == Raised(err.value))
        && commits == old(commits) + (if e.outcome.Done? then e.outcome.changes else [])
    {
      err := g.Write(PomFile, text);
      if err.Some? {
        return;
      }
      err := g.Stage(PomFile);
      if err.Some? {
        return;
      }
      err := g.CommitAll(msg);
      if err.None? {
        commits := commits + [msg];
      }
    }

    method RunStep(g: GitWorkingDir, title: string, goal: string -> MvnRun) returns (err: Option<string>)
      modifies this, g
      ensures var e := world.Goal(old(g.State()), title, goal);
        && g.State() == e.after
        && (err.None? <==> e.outcome.Done?)
        && (err.Some? ==> e.outcome == Raised(err.value))
        && commits == old(commits) + (if e.outcome.Done? then e.outcome.changes else [])
    {
      var pom := g.ReadFile(PomFile);
      if pom.None? {
        return Some(NoPomError);
      }
      var run := goal(pom.value);
      if run.exitCode != 0 {
        g.Become(Touched(g.State(), run));
        return Some(Strip(run.stdout));
      }
      match run.rewritten {
        case None =>
          return None;
        case Some(t) =>
          err := CommitPom(g, world.sortPom(t), StepMessage(title, run.stdout));
      }
    }

    method Run(g: GitWorkingDir) returns (o: Outcome)
      modifies this, g
      ensures Effect(o, g.State()) == world.Step(old(g.State()))
      ensures !IsMavenProject(old(g.State())) ==> commits == old(commits)
      ensures IsMavenProject(old(g.State())) && o.Done? ==> commits == o.changes
    {
      ghost var s := g.State();
      if PomFile !in g.files {
        return Done([]);
      }
      commits := [];
      var err := RemoveSnapshotParentPom(g);
      ghost var e0 := world.Correction(s);
      if err.Some? {
        return Raised(err.value);
      }
      assert g.State() == e0.after && commits == e0.outcome.changes;
      err := RunStep(g, LatestReleasesTitle, world.useLatestReleases);
      ghost var e1 := world.Goal(e0.after, LatestReleasesTitle, world.useLatestReleases);
      if err.Some? {
        return Raised(err.value);
      }
      assert commits == e0.outcome.changes + e1.outcome.changes;
      err := RunStep(g, PropertiesTitle, world.updateProperties);
      ghost var e2 := world.Goal(e1.after, PropertiesTitle, world.updateProperties);
      if err.Some? {
        return Raised(err.value);
      }
      err := RunStep(g, ParentTitle, world.updateParent);
      ghost var e3 := world.Goal(e2.after, ParentTitle, world.updateParent);
      if err.Some? {
        return Raised(err.value);
      }
      assert commits == e0.outcome.changes + e1.outcome.changes + e2.outcome.changes + e3.outcome.changes;
      o := Done(commits);
    }
  }

  // ---------------------------------------------------------------------
  // The two missing-file rules for Maven projects.

  lemma WorkflowPath()
    ensures JoinPath([".github", "workflows"] + ["maven.yml"]) == ".github/workflows/maven.yml"
  {
    assert [".github", "workflows"] + ["maven.yml"] == [".github", "workflows", "maven.yml"];
    JoinThree("/", ".github", "workflows", "maven.yml");
  }

  /** `MustHaveMavenGitHubWorkflow`: `.github/workflows/maven.yml` for Maven projects. */
  function MavenWorkflowFix(): (r: MissingFileFix)
    ensures r.RelativePath() == ".github/workflows/maven.yml"
    ensures r.contents == Content(MavenYml)
    ensures r.applies == IsMavenProject
  {
    WorkflowPath();
    FixedMissingFileFix([".github", "workflows"], "maven.yml", IsMavenProject, Content(MavenYml))
  }

  /** `MustHaveMavenGitIgnore`: `.gitignore` for Maven projects, with the
      contents downloaded from GitHub's gitignore collection. */
  function MavenGitIgnoreFix(download: Result<string>): (r: MissingFileFix)
    ensures r.RelativePath() == ".gitignore"
    ensures r.contents == FromDownload(download)
    ensures r.applies == IsMavenProject
  {
    FixedMissingFileFix([], ".gitignore", IsMavenProject, FromDownload(download))
  }
}
