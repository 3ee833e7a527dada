/**
  The older copy of the README image repair, whose replacement for a match
  is built from the whole README rather than from the matched text.  The
  file-name search is the same as in the newer copy and is shared with it.
 */
module ReadmeImage {
  import opened Wrappers
  import opened Text
  import opened Git
  import opened Regex
  import opened FixersBase
  import opened Readme

  /** `image_convert` of `readme_image.py`: everything in the README before
      the file name group, the repaired path, and everything after it. */
  function LegacyImageConvert(t: WorkTree, s: string, m: Match): string
  {
    if m.groupStart <= m.groupEnd <= |s| then
      s[..m.groupStart] + NewFilename(t, s[m.groupStart..m.groupEnd]) + s[m.groupEnd..]
    else ""
  }

  /** `ReadmeFix.convert` of `readme_image.py`. */
  function LegacyConvertImages(s: WorkTree, contents: string): string
  {
    Sub(MarkdownImage, contents, m => LegacyImageConvert(s, contents, m), 0)
  }

  /** The older replacement is the newer one plus all the README text
      outside the match: it repeats the text before and after each image. */
  lemma LegacyImageConvertLength(t: WorkTree, s: string, m: Match)
    requires m.start <= m.groupStart <= m.groupEnd <= m.end <= |s|
    ensures LegacyImageConvert(t, s, m) ==
      s[..m.start] + ImageConvert(t, s, m) + s[m.end..]
    ensures |LegacyImageConvert(t, s, m)| == |ImageConvert(t, s, m)| + m.start + (|s| - m.end)
  {
    PrefixSplit(s, m.start, m.groupStart);
    SuffixSplit(s, m.groupEnd, m.end);
    Regroup(s[..m.start], s[m.start..m.groupStart], NewFilename(t, s[m.groupStart..m.groupEnd]),
      s[m.groupEnd..m.end], s[m.end..]);
  }

  lemma Regroup(a: string, b: string, c: string, d: string, e: string)
    ensures (a + b) + c + (d + e) == a + (b + c + d) + e
  {
  }

  /** A one-image README: one character of text, then an image whose path
      `/b` names a file: `x![](/b?raw=true "")`. */
  const Sample: string := "x" + "![" + "](/" + "b" + RawSuffix + "\")"

  lemma LiteralAtJoin(a: string, lit: string, b: string)
    ensures LiteralAt(a + lit + b, |a|, lit)
  {
    assert (a + lit + b)[|a|..|a| + |lit|] == lit;
  }

  lemma SampleLayout()
    ensures |Sample| == 20 && Sample[0] == 'x' && Sample[3] == ']' && Sample[18] == '"'
    ensures !LiteralAt(Sample, 0, "![") && LiteralAt(Sample, 1, "![") && LiteralAt(Sample, 3, "](/")
    ensures IsPathChar(Sample[6]) && !IsPathChar(Sample[7])
    ensures LiteralAt(Sample, 7, RawSuffix) && LiteralAt(Sample, 18, "\")")
  {
    LiteralAtJoin("x", "![", "](/" + "b" + RawSuffix + "\")");
    assert Sample == "x" + "![" + ("](/" + "b" + RawSuffix + "\")");
    LiteralAtJoin("x" + "![", "](/", "b" + RawSuffix + "\")");
    assert Sample == ("x" + "![") + "](/" + ("b" + RawSuffix + "\")");
    LiteralAtJoin("x" + "![" + "](/" + "b", RawSuffix, "\")");
    LiteralAtJoin("x" + "![" + "](/" + "b" + RawSuffix, "\")", "");
    assert Sample == "x" + "![" + "](/" + "b" + RawSuffix + "\")" + "";
  }

  /** The image pattern matches the sample at index 1 only, and the match
      covers the rest of the sample. */
  lemma SampleMatch()
    ensures MatchAt(MarkdownImage, Sample, 0).None?
    ensures MatchAt(MarkdownImage, Sample, 1) == Some(Match(1, 5, 7, 20))
  {
    SampleLayout();
    assert SkipUntil(Sample, 3, ']') == 3;
    assert SkipPathChars(Sample, 7) == 7;
    assert SkipPathChars(Sample, 6) == 7;
    assert SkipUntil(Sample, 18, '"') == 18;
  }

  lemma SamplePathKept(t: WorkTree)
    requires "b" in t.files
    ensures NewFilename(t, Sample[5..7]) == Sample[5..7]
  {
    SampleLayout();
    assert Sample[5..7] == "/b" by {
      assert Sample == "x" + "![" + "](" + "/b" + RawSuffix + "\")";
      assert |"x" + "![" + "]("| == 5;
    }
    RootFileKept(t);
  }

  /** `/b` names the file `b` at the root, so it stays. */
  lemma RootFileKept(t: WorkTree)
    requires "b" in t.files
    ensures NewFilename(t, "/b") == "/b"
  {
    var p := "/b";
    assert p[1..] == "b";
    assert NoDoubleSlash(p) by {
      assert p[1] == 'b';
    }
    assert Split(p[1..], '/') == ["b"];
    assert Plain(["b"]);
    PlainIsFileAt(t, ["b"]);
    ExistingPathKept(t, p);
  }

  /** The substitution over the sample is the replacement of its one match,
      after the first character. */
  lemma SampleSub(repl: Match -> string)
    ensures Sub(MarkdownImage, Sample, repl, 0) == "x" + repl(Match(1, 5, 7, 20))
  {
    SampleLayout();
    SampleMatch();
    assert Sub(MarkdownImage, Sample, repl, 20) == "";
  }

  /** On the sample, whose image path is already right, the newer repair
      gives the README back unchanged ... */
  lemma NewerKeepsSample(s: WorkTree)
    requires "b" in s.files
    ensures ConvertImages(s, Sample) == Sample
  {
    SampleLayout();
    SamplePathKept(s);
    var m := Match(1, 5, 7, 20);
    SampleSub(m => ImageConvert(s, Sample, m));
    assert ImageConvert(s, Sample, m) == Sample[1..5] + Sample[5..7] + Sample[7..20];
    SliceSplit(Sample, 1, 5, 20);
    SliceSplit(Sample, 5, 7, 20);
    Assoc(Sample[1..5], Sample[5..7], Sample[7..20]);
    PrefixSplit(Sample, 1, 20);
    assert Sample[..20] == Sample;
    assert Sample[..1] == "x";
  }

  /** ... while the older one puts a second copy of the text before the
      image in front of it. */
  lemma LegacyDuplicatesText(s: WorkTree)
    requires "b" in s.files
    ensures LegacyConvertImages(s, Sample) == "x" + Sample
    ensures LegacyConvertImages(s, Sample) != ConvertImages(s, Sample)
  {
    SampleLayout();
    SamplePathKept(s);
    SampleSub(m => LegacyImageConvert(s, Sample, m));
    assert Sample == Sample[..5] + Sample[5..7] + Sample[7..];
    NewerKeepsSample(s);
  }

  /** `ReadmeFix` of `readme_image.py`: the older repair applied to
      `README.md`. */
  function LegacyReadmeImageFix(): (r: SingleFileFix)
    ensures r.filename == "README.md" && r.msg == "Fixed broken images in README"
    ensures r.convert == LegacyConvertImages
  {
    SingleFileFix("README.md", "Fixed broken images in README", LegacyConvertImages)
  }
}
