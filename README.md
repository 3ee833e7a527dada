# instarepo fixer pipeline, modelled in Dafny

instarepo clones each of a user's GitHub repositories and runs a fixed list of
*fixers* (rules) against the working copy. Each rule may write files, stage
them and commit with a message. Each returns the list of messages it
committed. A per-repository driver then:

- compares the work branch with the default branch;
- warns when git and the rules disagree;
- unless it is a dry run, pushes the branch and opens a pull request whose
  body lists the changes.

This project models that pipeline.

- **Working copy and git** (`git.dfy`). The state is the datatype
  `Git.WorkTree`:
  - files and directories;
  - the staging index;
  - local and remote branches, each a history of commits;
  - the checked-out branch.

  Each git or file-system call is a function on `WorkTree` that either
  succeeds or fails. The class `Git.GitWorkingDir` holds the same fields and
  updates them in place through methods. Every rule is modelled twice:
  - a pure `Step` function from the starting state to an `Effect`, that is,
    the messages returned (or the exception raised) and the new state;
  - a method `Run` on a `GitWorkingDir`, whose `ensures` ties its outcome and
    new state to `Step`.

  Properties are proved as lemmas about the `Step` functions.
- **The reporting contract** (`FixersBase.Reported`). Starting from a clean
  checkout, a rule that ends normally has:
  - appended exactly one commit per message it returned, with those
    messages, in order, on the current branch;
  - left the checkout clean;
  - changed no branch but the current one.

  Every rule is proved to keep this contract, and so is the composite and
  the whole list of rules the driver runs.
- **Rule patterns** (`base.dfy`, `missing_files.dfy`, `composite.dfy`):
  - the single-file rewrite;
  - the create-if-missing rule, current and older;
  - the composite.
- **Concrete rules:**
  - licence and README creation;
  - editor config and funding files;
  - the Maven rule and Maven files;
  - the .NET workflow and `.sln` reader;
  - Pascal formatting and trimming;
  - VB6 and Lazarus ignore files;
  - Travis removal;
  - README image repair;
  - the README-derived repository description.
- **Driver and helpers:** the per-repository driver, the pull-request body
  renderer, the settings lookup and the repository filter.

Outside inputs enter as parameters. These are:
- the git user name and the current year;
- the output of `mvn` and JEDI Code Format;
- the `.sln` tokenizer;
- downloads;
- the repository listing.

## Model

| member | source | states |
|---|---|---|
| FixersBase.AndThen | instarepo/fixers/base.py:11-15 | Sequencing two rules: an exception stops the run; otherwise the messages are concatenated in order and the second rule sees the state the first left |
| FixersBase.AndThenReported | instarepo/fixers/base.py:11-15 | If each of two rules keeps the reporting contract, their sequence does |
| Composite.RunAllAppend | instarepo/fixers/base.py:11-15 | Running the rules `a + b` is running `a`, then `b` on the resulting state |
| Composite.RunAllOne | instarepo/fixers/base.py:11-15 | A composite of one rule behaves exactly like that rule |
| Composite.Run | instarepo/fixers/base.py:11-15 | The loop over the rules ends with the outcome and working copy of the composite's specification `RunAll` |
| Composite.RunAllReported | instarepo/fixers/base.py:11-15 | A composite of rules that each keep the reporting contract keeps it |
| Composite.RunAllParts | instarepo/fix.py:9-13 | A normal run's result is the in-order concatenation of each rule's messages, and its length is the sum of their lengths |
| Composite.FlattenLength | instarepo/fix.py:9-13 | The length of a concatenation of message lists is the sum of their lengths |
| FixersBase.CommitChangeReported | instarepo/fixers/base.py:35-37 | Committing a staged change appends one commit with that message and leaves the checkout clean |
| FixersBase.WriteAddCommitLaw | instarepo/fixers/base.py:33-37 | Write, stage and commit reports exactly `[msg]` and sets only that file's contents; it succeeds from a clean checkout whenever the parent directory exists and the contents differ |
| FixersBase.SingleFileFix.Run | instarepo/fixers/base.py:24-37 | The method reads, converts, writes, stages and commits as the specification `Step` says |
| FixersBase.SingleFileLaw | instarepo/fixers/base.py:24-37 | From a clean checkout the result is `[msg]` exactly when the file exists and `convert` changes it, else `[]`; an empty result leaves the working copy untouched |
| FixersBase.KeepContentsNeverChanges | instarepo/fixers/base.py:39-40 | With the default identity `convert`, the rule never changes anything and returns `[]` |
| FixersBase.SingleFileSecondRun | instarepo/fixers/base.py:30-32 | When `convert` is idempotent, a second run returns `[]` and changes nothing |
| FixersBase.SplitTarget | instarepo/fixers/base.py:50-57 | The path split succeeds exactly when the name is non-empty and has no empty segment after `\` becomes `/`; the segments join back to the normalised name; an empty name gives the constructor's message |
| FixersBase.SplitTargetOfJoin | instarepo/fixers/base.py:50-57 | Splitting a path built from valid segments gives back those directory parts and that file name |
| FixersBase.NewMissingFileFix | instarepo/fixers/base.py:44-57 | The constructor succeeds exactly when the split does, and the rule's relative path is the normalised name |
| FixersBase.FixedAccepted | instarepo/fixers/base.py:44-57 | A path written as valid segments is accepted by the constructor, with those parts |
| FixersBase.EnsureDirectories | instarepo/fixers/base.py:83-88 | The directory loop ends in the state of the specification `EnsureDirs`, and reports an error exactly when it does |
| FixersBase.EnsureDirsFrame | instarepo/fixers/base.py:83-88 | Creating the directories changes only the directory set, only adds to it, and reports no message |
| FixersBase.EnsureDirsSucceeds | instarepo/fixers/base.py:83-88 | When no prefix is a file, every prefix directory exists afterwards |
| FixersBase.EnsureDirsPresent | instarepo/fixers/base.py:86-88 | When every prefix already exists, nothing changes |
| FixersBase.EnsureDirsReachedAll | instarepo/fixers/base.py:83-88 | After a successful pass every prefix from the current one on is a directory |
| FixersBase.EnsureDirsOnlyPrefixes | instarepo/fixers/base.py:83-88 | The only directories created are prefixes of the target's directory parts |
| FixersBase.MissingFileFix.Run | instarepo/fixers/base.py:59-75 | The method creates the directories, checks existence, applicability and contents, and writes and commits as `Step` says |
| FixersBase.MissingExistingFirst | instarepo/fixers/base.py:60-64 | When the target exists the result is `[]` whatever the applicability test and contents are, so neither is consulted, and only directories may have changed |
| FixersBase.MissingFileLaw | instarepo/fixers/base.py:59-75 | The rule keeps the reporting contract, and after a normal run every prefix directory exists, even when nothing was written |
| FixersBase.MissingFileOutcome | instarepo/fixers/base.py:59-75 | From a clean checkout the result is `["chore: Adding " + path]` exactly when the file is absent, the rule applies and there is content; otherwise `[]` |
| FixersBase.MissingFileDownload | instarepo/fixers/base.py:59-75 | For a rule whose contents are a download: `[]` when the file exists or the rule does not apply; otherwise the commit of the downloaded text, or the download's error raised with only directories created |
| FixersBase.DirsReadyForTarget | instarepo/fixers/base.py:60-72 | With no file in the way, directory creation succeeds and leaves the target's parent directory in place and the target itself free to write |
| FixersBase.TargetAfterPrefixes | instarepo/fixers/base.py:61 | The relative path is none of its directory prefixes, and its parent is the last one |
| FixersBase.MissingSecondRun | instarepo/fixers/base.py:63-64 | After a run that created the file, a second run returns `[]` and changes nothing |
| LegacyFix.ReadmeRun | instarepo/fix.py:20-26 | The older README rule returns `[]` and, having no frame, writes nothing |
| LegacyFix.DummyRun | instarepo/fix.py:33-38 | The method writes `test.txt`, stages it and commits as `DummyStep` says |
| LegacyFix.DummyLaw | instarepo/fix.py:33-38 | The returned message is the commit message, `test.txt` holds `"hello, world"`, and from a clean checkout the commit fails exactly when the file already had that text |
| MissingFiles.NewLegacyMissingFileFix | instarepo/fixers/missing_files.py:20-27 | The older constructor rejects the same names with the same messages and splits the path the same way |
| MissingFiles.LegacyMissingFileFix.Run | instarepo/fixers/missing_files.py:29-43 | The older rule's method behaves as its specification `Step` |
| MissingFiles.LegacyLaw | instarepo/fixers/missing_files.py:29-43 | The older rule keeps the reporting contract and returns `[]` or `["Adding " + path]` |
| MissingFiles.LegacyAgreesWithCurrent | instarepo/fixers/missing_files.py:29-43 | Where contents exist, the older and current rules write the same files and report a change in the same cases |
| MissingFiles.LegacyNoContentRaises | instarepo/fixers/missing_files.py:37-39 | Where the current rule skips a missing content, the older one creates an empty file and then raises |
| MissingFiles.LegacyOutcome | instarepo/fixers/missing_files.py:29-43 | From a clean checkout the older rule reports a change exactly when the file is absent and the rule applies, and then the file holds the contents |
| MissingFiles.LegacySecondRun | instarepo/fixers/missing_files.py:33-34 | A second run after a creating run returns `[]` and changes nothing |
| MissingFiles.LegacyLicenseFix | instarepo/fixers/missing_files.py:83-98 | The target is `LICENSE` at the root, the applicability test is `PublicSource`, and the contents are the given licence text |
| MissingFiles.LegacyLicenseSkipsPrivateAndForks | instarepo/fixers/missing_files.py:91-92 | A private or forked repository gets no licence: the rule returns `[]` and changes nothing, whatever the working copy |
| MissingFiles.ReadmeContents | instarepo/fixers/missing_files.py:109-113 | The contents start with `"# " + name + "\n"` |
| MissingFiles.ReadmeContentsLines | instarepo/fixers/missing_files.py:109-113 | The lines of the contents are the title, then a blank line and the description only when the description is non-empty |
| MissingFiles.LegacyReadmeFix | instarepo/fixers/missing_files.py:101-113 | The target is `README.md`, with no applicability condition and the contents above |
| MissingFiles.LegacyEditorConfigFix | instarepo/fixers/missing_files.py:116-137 | The target is `.editorconfig` with the fixed text, for every repository |
| MissingFiles.LegacyFundingFix | instarepo/fixers/missing_files.py:140-160 | The target is `FUNDING.yml` under the directory part `[".github"]`, for every repository |
| MissingFiles.LegacyMavenWorkflowFix | instarepo/fixers/missing_files.py:163-200 | The target is the Maven workflow, applying exactly when `pom.xml` is a file |
| MissingFiles.LegacyMavenGitIgnoreFix | instarepo/fixers/missing_files.py:203-216 | The target is `.gitignore`, applying exactly when `pom.xml` is a file, with the downloaded text or the download's error |
| MissingFiles.LicenseOutcome | instarepo/fixers/missing_files.py:83-98 | From a clean checkout, `LICENSE` is created exactly when it is absent and the repository is public and not a fork |
| MissingFiles.ReadmeOutcome | instarepo/fixers/missing_files.py:101-113 | From a clean checkout, `README.md` is created exactly when it is absent, with the title-and-description contents |
| Templates.DecimalString | instarepo/fixers/must_have_license.py:47-48 | The year is written as a non-empty string of decimal digits |
| Templates.DecimalStringValue | instarepo/fixers/must_have_license.py:47-48 | The year text reads back as the year and starts with `0` only for 0, so it is the one canonical decimal form |
| Templates.FillPlaceholdersLaw | instarepo/fixers/must_have_license.py:47-49 | Replacing `[year]` and then `[fullname]` in a template with no other `[` puts the year and the name exactly where the placeholders were, whatever the name contains |
| Templates.YearHasNoBracket | instarepo/fixers/must_have_license.py:47-48 | The year text has no `[`, so it cannot create a placeholder |
| MustHaveLicense.NewMustHaveLicenseFix | instarepo/fixers/must_have_license.py:47-49 | The licence rule writes the MIT text filled with the given year and user name |
| MustHaveLicense.MustHaveLicenseFix.Run | instarepo/fixers/must_have_license.py:41-54 | The method checks existence, then privacy and forks, then writes, stages and commits as `Step` says |
| MustHaveLicense.LicenseLaw | instarepo/fixers/must_have_license.py:41-54 | The rule keeps the reporting contract, returns `[]` or `["Adding LICENSE to repository"]`, and an empty result changes nothing |
| MustHaveLicense.LicenseExistingFirst | instarepo/fixers/must_have_license.py:42-44 | An existing `LICENSE` gives `[]` with no change, whatever the repository's flags |
| MustHaveLicense.LicenseSkipsPrivateAndForks | instarepo/fixers/must_have_license.py:45-46 | A private or forked repository gives `[]` with no change |
| MustHaveLicense.LicenseOutcome | instarepo/fixers/must_have_license.py:41-54 | From a clean checkout the licence is written exactly when absent and the repository is public and not a fork, and the file then holds the filled template |
| MustHaveLicense.LicenseSecondRun | instarepo/fixers/must_have_license.py:42-44 | A second run after a creating run changes nothing |
| MustHaveLicense.AgreesWithOlderRule | instarepo/fixers/missing_files.py:83-98 | With the same text, the licence rule and the older missing-file licence rule decide alike and write the same files |
| MustHaveReadme.ReadmeText | instarepo/fixers/must_have_readme.py:21-25 | The README starts with the title line and a blank line |
| MustHaveReadme.ReadmeTextLines | instarepo/fixers/must_have_readme.py:21-25 | Its lines are the title, a blank line, and the description only when the description is non-empty |
| MustHaveReadme.ReadmeTextVsOlder | instarepo/fixers/missing_files.py:109-113 | It equals the older rule's contents when there is a description, and has one extra newline when there is none |
| MustHaveReadme.MustHaveReadmeFix.Run | instarepo/fixers/must_have_readme.py:17-28 | The method checks existence, then writes, stages and commits as `Step` says |
| MustHaveReadme.ReadmeLaw | instarepo/fixers/must_have_readme.py:17-28 | The rule keeps the reporting contract, returns `[]` or `["Adding README.md to repository"]`, and an empty result changes nothing |
| MustHaveReadme.ReadmeOutcome | instarepo/fixers/must_have_readme.py:17-28 | From a clean checkout the README is written exactly when it is absent, for every repository, with the text above |
| MustHaveReadme.ReadmeSecondRun | instarepo/fixers/must_have_readme.py:18-20 | A second run after a creating run changes nothing |
| Ci.NoTravis | instarepo/fixers/ci.py:17-25 | The method removes and commits as `NoTravisStep` says |
| Ci.NoTravisLaw | instarepo/fixers/ci.py:17-25 | From a clean checkout the result is `["chore: Removed .travis.yml"]` exactly when the file exists, and the file is then gone; `[]` means no change |
| Ci.NoTravisSecondRun | instarepo/fixers/ci.py:20-21 | A second run returns `[]` and changes nothing |
| Ci.RemoveTravisBadgeChanges | instarepo/fixers/ci.py:43-44 | Removing badges leaves the text unchanged exactly when it contains no Travis build-status badge |
| Ci.EraseShrinks | instarepo/fixers/ci.py:43-44 | Removing badges never lengthens the text, and shortens it when a badge is present |
| Ci.NoTravisBadgeFix | instarepo/fixers/ci.py:28-35 | The rule targets `README.md` with message `"chore: Removed Travis badge from README"` and converts by removing badges |
| Ci.NoTravisBadgeOutcome | instarepo/fixers/ci.py:28-35 | From a clean checkout the rule commits exactly when `README.md` exists and holds a badge |
| Vb6.Vb6ProjectFiles | instarepo/fixers/vb6.py:7-19 | A directory is a VB6 project exactly when a root file ends in `.vbp` or `.vbg` |
| Vb6.FindVb6Entry | instarepo/fixers/vb6.py:7-15 | The early-return search returns true exactly when some entry is a VB6 file |
| Vb6.DetectVb6Project | instarepo/fixers/vb6.py:7-15 | Scanning the root decides `IsVb6Project` |
| Vb6.Vb6GitIgnoreFix | instarepo/fixers/vb6.py:22-39 | The rule targets `.gitignore` at the root with the four-pattern text and applies only to VB6 projects |
| Vb6.NotVb6NoGitIgnore | instarepo/fixers/vb6.py:35-36 | A repository that is not a VB6 project is left unchanged |
| Vb6.Vb6GitIgnoreAdded | instarepo/fixers/vb6.py:29-39 | A clean VB6 project without `.gitignore` gets one, with the rule's message |
| Pascal.TrimLines | instarepo/fixers/pascal.py:16 | The trimmed lines are as many as the original ones, and each is the right-stripped line plus a newline |
| Pascal.TrimmedLines | instarepo/fixers/pascal.py:13-18 | Reading the trimmed file back gives exactly the trimmed lines |
| Pascal.TrimEndsWithNewline | instarepo/fixers/pascal.py:13-18 | Trimming empties only an empty file, and otherwise ends the file with a newline, so a last line without one gains one |
| Pascal.TrimIdempotent | instarepo/fixers/pascal.py:16 | Trimming twice gives the same text as trimming once |
| Text.ReadLines | instarepo/fixers/pascal.py:15 | `readlines`: the lines concatenate back to the text, none is empty, each but the last ends with a newline, and none has a newline inside |
| Text.ReadLinesConcat | instarepo/fixers/pascal.py:15 | Reading back lines that each end in one newline gives exactly those lines |
| Text.Split | instarepo/commands/fix.py:154 | `split(sep)` gives at least one piece and no piece contains the separator |
| Text.JoinSplit | instarepo/commands/fix.py:154 | Joining the pieces of a split with the separator gives the text back |
| Text.SplitJoin | instarepo/commands/fix.py:154 | Splitting pieces joined with a separator they do not contain gives the pieces back |
| Text.Strip | instarepo/commands/fix.py:155 | `strip()` gives a middle part of the text that neither starts nor ends with whitespace |
| Text.StripEmpty | instarepo/commands/fix.py:155-156 | The stripped text is empty exactly when the text is all whitespace |
| Text.RStrip | instarepo/fixers/pascal.py:16 | `rstrip()` gives a prefix of the text that does not end with whitespace |
| Text.SortedSet | instarepo/fixers/vb6.py:11-12 | Directory entries are listed once each and in sorted order |
| Pascal.PascalEntryFiles | instarepo/fixers/pascal.py:37-40 | The Pascal entries of the root are exactly its files ending in `.pas` or `.lpr` |
| Pascal.LazarusProjectFiles | instarepo/fixers/pascal.py:43-51 | A directory is a Lazarus project exactly when a root file ends in `.lpr` |
| Pascal.FindLazarusEntry | instarepo/fixers/pascal.py:47-51 | The early-return search returns true exactly when some entry is an `.lpr` file |
| Pascal.DetectLazarusProject | instarepo/fixers/pascal.py:43-51 | Scanning the root decides `IsLazarusProject` |
| Pascal.LazarusGitIgnoreFix | instarepo/fixers/pascal.py:106-127 | The rule targets `.gitignore` with the Lazarus text and applies only to Lazarus projects |
| Pascal.NotLazarusNoGitIgnore | instarepo/fixers/pascal.py:123-124 | A repository that is not a Lazarus project is left unchanged |
| Pascal.LazarusGitIgnoreAdded | instarepo/fixers/pascal.py:118-127 | A clean Lazarus project without `.gitignore` gets one |
| Pascal.AutoFormat.Process | instarepo/fixers/pascal.py:78-91 | Formatting one file updates the working copy and the `files` list as `ProcessFile` says |
| Pascal.AutoFormat.Run | instarepo/fixers/pascal.py:61-76 | The scan, the formatting and the final commit end as `AutoFormatStep` says |
| Pascal.AutoFormat.constructor | instarepo/fixers/pascal.py:56-59 | A new rule has an empty list of formatted files |
| Pascal.ProcessFileFrame | instarepo/fixers/pascal.py:78-91 | Formatting a file changes only files and index, keeps a clean checkout clean, only appends to `files`, and changes nothing when it appends nothing |
| Pascal.ProcessFileList | instarepo/fixers/pascal.py:89-91 | One call appends either the file or nothing to `files`, and a call that appends nothing leaves the working copy as it was |
| Pascal.ProcessFileClean | instarepo/fixers/pascal.py:78-91 | A file whose formatting succeeds is replaced by its formatted and trimmed text, and is appended exactly when that differs from before |
| Pascal.FormatEntriesFrame | instarepo/fixers/pascal.py:68-71 | The scan loop keeps the frame of each call: files and index only, with `files` only growing |
| Pascal.FormatEntriesChanged | instarepo/fixers/pascal.py:68-71 | When every formatting succeeds, `files` gains exactly the changed Pascal files, in scan order |
| Pascal.FormatEntriesContents | instarepo/fixers/pascal.py:68-71 | Every scanned Pascal file ends with its formatted and trimmed text |
| Pascal.FormatEntriesKeepsOthers | instarepo/fixers/pascal.py:68-71 | A file that is not a scanned Pascal entry keeps its contents |
| Pascal.ChangedFilesMember | instarepo/fixers/pascal.py:89-91 | A listed file is a Pascal root entry whose formatting succeeded and changed its text |
| Pascal.ScanChanges | instarepo/fixers/pascal.py:68-73 | The list of changed files is empty exactly when the scan changed no file |
| Pascal.FinishLaw | instarepo/fixers/pascal.py:72-76 | The end of the run keeps the reporting contract and returns `[]` or the single auto-format message |
| Pascal.FinishCommits | instarepo/fixers/pascal.py:72-76 | With changed files it commits once and returns `["Auto-formatted Pascal files: " + ", ".join(files)]`; otherwise `[]` |
| Pascal.AutoFormatLaw | instarepo/fixers/pascal.py:61-76 | The rule keeps the reporting contract, and with JCF or its configuration missing it returns `[]` and changes nothing |
| Pascal.AutoFormatOutcome | instarepo/fixers/pascal.py:61-76 | From a clean checkout with JCF installed, the rule returns the message for exactly the changed files, or `[]`, and stays clean |
| Pascal.AutoFormatContents | instarepo/fixers/pascal.py:61-91 | Afterwards every root Pascal file holds its formatted text, and every other path is as before |
| Pascal.AutoFormatPascalPath | instarepo/fixers/pascal.py:66-71 | A Pascal file at the root ends with its formatted and trimmed text |
| Pascal.AutoFormatOtherPath | instarepo/fixers/pascal.py:66-71 | Any other path keeps its contents, or stays absent |
| Maven.FilterLine | instarepo/fixers/maven.py:190-209 | The deny-prefix loop keeps a line exactly when it is non-empty and starts with none of the eleven prefixes |
| Maven.MapLine | instarepo/fixers/maven.py:184-187 | The mapped line has no leading or trailing whitespace |
| Maven.MapLineTagged | instarepo/fixers/maven.py:174-187 | A line starting with `[UPPERCASE]` loses that tag and is then stripped |
| Maven.KeepOne | instarepo/fixers/maven.py:177-181 | A line survives exactly when its mapped form passes the filter, and then it is that mapped form |
| Maven.KeptLines | instarepo/fixers/maven.py:177-181 | Every kept line passes the filter, and there are at most as many as in the input |
| Maven.KeptLinesAppend | instarepo/fixers/maven.py:177-181 | Filtering respects concatenation, so the kept lines keep their original order |
| Maven.FilterOutputLines | instarepo/fixers/maven.py:177-181 | The lines of the filtered output are exactly the mapped input lines that pass the filter, in order |
| Maven.SampleOutput | instarepo/fixers/maven_test.py:3-24 | The tested Maven log reduces to `"Updating parent from 1.10.0 to 2.0.0"` |
| Maven.SampleKeptLines | instarepo/fixers/maven_test.py:3-24 | Of the tested log's lines, only the parent update is kept |
| Maven.KeptOnlyOne | instarepo/fixers/maven.py:177-181 | When all lines but one are rejected, the output is what that line gives |
| Maven.CorrectParent | instarepo/fixers/maven.py:57-67 | An empty `<relativePath/>` raises the AttributeError of `None.startswith`. Otherwise an empty `<version/>` raises the TypeError of `in None`. Otherwise a correction is needed exactly when the relativePath text starts with `../` or the version contains `SNAPSHOT`. A snapshot's version becomes the latest release, and the lookup's error (an empty group id or a failed download) is raised exactly then. An outside relativePath is dropped. The ids and everything not named are kept |
| Maven.CorrectParentSettles | instarepo/fixers/maven.py:62-67 | After a correction whose release is not a snapshot, a second correction does nothing |
| Maven.EmptyRelativePathRaises | instarepo/fixers/maven.py:60-62 | The usual Spring Boot parent, with `<relativePath/>` and a release version, raises although nothing needs correcting |
| Maven.EmptyElementStopsRule | instarepo/fixers/maven.py:60-66 | An empty `<relativePath/>` or `<version/>` makes the whole rule raise before any `mvn` goal runs, with the working copy untouched |
| Maven.StepMessage | instarepo/fixers/maven.py:86 | The step message starts with the title and a blank line |
| Maven.CorrectionLaw | instarepo/fixers/maven.py:40-77 | The parent correction keeps the reporting contract and commits `"Corrected parent pom reference"` at most once |
| Maven.GoalLaw | instarepo/fixers/maven.py:79-88 | A step keeps the reporting contract and reports nothing or the one message built from its title and `mvn`'s output. A non-zero exit raises the stripped output and leaves the branches alone. A successful run that rewrote nothing changes nothing |
| Maven.GoalNamed | instarepo/fixers/maven.py:79-88 | A step reports at most one message, starting with its title |
| Maven.MavenLaw | instarepo/fixers/maven.py:29-38 | The Maven rule keeps the reporting contract, reports at most four messages, and returns `[]` with no change without `pom.xml` |
| Maven.MavenMessages | instarepo/fixers/maven.py:29-38 | Every message is the correction message or starts with one of the three step titles |
| Maven.MavenQuiet | instarepo/fixers/maven.py:29-88 | When the parent, if any, needs no correction and raises nothing (so it has no empty `<relativePath/>` or `<version/>`), and no `mvn` step rewrites the POM, the rule returns `[]` and changes nothing |
| Maven.MavenFix.RemoveSnapshotParentPom | instarepo/fixers/maven.py:40-77 | The method updates the POM and the commit list as `Correction` says, and raises where `CorrectParent` raises, on empty elements or a failed lookup |
| Maven.MavenFix.RunStep | instarepo/fixers/maven.py:79-88 | The method runs the goal and appends its commit message as `Goal` says |
| Maven.MavenFix.Run | instarepo/fixers/maven.py:29-38 | The method ends as `Step` says and, for a Maven project, returns exactly the commits list it reset at the start |
| Maven.MavenFix.constructor | instarepo/fixers/maven.py:24-27 | A new rule has recorded no commits |
| Maven.MavenFix.CommitPom | instarepo/fixers/maven.py:70-77 | Writing, staging and committing `pom.xml` end as `WriteAddCommit` says, and the message is recorded when it succeeds |
| Maven.KeptNone | instarepo/fixers/maven.py:177-181 | When every line is rejected, the output is empty |
| Maven.MavenWorkflowFix | instarepo/fixers/maven.py:254-264 | The workflow rule targets `.github/workflows/maven.yml` with the fixed text, for Maven projects only |
| Maven.MavenGitIgnoreFix | instarepo/fixers/maven.py:267-282 | The ignore rule targets `.gitignore` with the downloaded text, for Maven projects only |
| Maven.WorkflowPath | instarepo/fixers/missing_files.py:194 | The workflow's segments join to `.github/workflows/maven.yml` |
| Dotnet.FindToken | instarepo/fixers/dotnet.py:198-205 | The search returns the needle or the empty token, and consumes input |
| Dotnet.FindTokenFirst | instarepo/fixers/dotnet.py:198-205 | The search stops at the first token equal to the needle and leaves what follows it |
| Dotnet.FindTokenAbsent | instarepo/fixers/dotnet.py:198-205 | Without the needle the search returns the empty token |
| Dotnet.SlnParser.Next | instarepo/fixers/dotnet.py:193-196 | Reading a token consumes it from the parser's input |
| Dotnet.SlnParser.constructor | instarepo/fixers/dotnet.py:181-191 | A parser starts on the whole token sequence |
| Dotnet.SlnProjectFinder.constructor | instarepo/fixers/dotnet.py:137-138 | A finder reads through the given parser |
| Dotnet.ProjectPath | instarepo/fixers/dotnet.py:146-167 | Reading one project entry never adds input |
| Dotnet.SlnParser.Find | instarepo/fixers/dotnet.py:198-205 | The loop ends as `FindToken` says, on the parser's own input |
| Dotnet.SlnProjectFinder.ReadProjectPath | instarepo/fixers/dotnet.py:146-167 | The seven-token check consumes and returns as `ProjectPath` says |
| Dotnet.SlnProjectFinder.Next | instarepo/fixers/dotnet.py:140-144 | Finding the next project consumes and returns as `NextProject` says |
| Dotnet.SlnProjectFinder.All | instarepo/fixers/dotnet.py:169-177 | Iterating to exhaustion yields `Projects` of the input |
| Dotnet.NextProject | instarepo/fixers/dotnet.py:140-144 | A project found is non-empty and input was consumed |
| Dotnet.Projects | instarepo/fixers/dotnet.py:172-177 | No listed project path is empty |
| Dotnet.ProjectEntryRead | instarepo/fixers/dotnet.py:146-167 | A C# project entry yields its path without quotes, followed by the projects after it |
| Dotnet.OtherProjectSkipped | instarepo/fixers/dotnet.py:150-155 | An entry with another project type yields nothing |
| Dotnet.NoProjectToken | instarepo/fixers/dotnet.py:140-144 | Input without a `Project` token yields no project |
| Dotnet.ProjectsFromSln | instarepo/fixers/dotnet.py:117-133 | Reading the solution gives `Projects` of its tokens |
| Dotnet.Solutions | instarepo/fixers/dotnet.py:73-80 | The solutions are root files ending in `.sln`, taken from the entries |
| Dotnet.SingleSolution | instarepo/fixers/dotnet.py:72-82 | The scan finds a solution exactly when there is exactly one, and returns its name |
| Dotnet.MustHaveGitHubActionFix.ShouldProcessRepo | instarepo/fixers/dotnet.py:66-83 | The method decides `ShouldProcess`: exactly one solution, which lists at least one project |
| Dotnet.WorkflowForTrunk | instarepo/fixers/dotnet.py:92-114 | For the branch `trunk` the workflow is the template itself |
| Dotnet.NewMustHaveGitHubActionFix | instarepo/fixers/dotnet.py:39 | The expected workflow is the template for the default branch |
| Dotnet.RemoveAppveyor | instarepo/fixers/dotnet.py:85-89 | `appveyor.yml` is removed with `git rm` exactly when it is a file, and the result says whether it was |
| Dotnet.RmAppveyor | instarepo/fixers/dotnet.py:85-89 | The method removes the file as `RemoveAppveyor` says |
| Dotnet.AppveyorLaw | instarepo/fixers/dotnet.py:60-64 | The removal step keeps the reporting contract and always leaves `appveyor.yml` gone. From a clean checkout it returns `["chore: Removed appveyor.yml from .NET project"]` exactly when the file existed; `[]` means nothing changed |
| Dotnet.WriteLaw | instarepo/fixers/dotnet.py:49-59 | Writing the workflow commits one message, sets `build.yml`, removes `appveyor.yml`, and keeps the directories |
| Dotnet.WriteSucceeds | instarepo/fixers/dotnet.py:49-59 | From a clean checkout with the directory in place, an outdated workflow is always written and committed |
| Dotnet.UpdateLaw | instarepo/fixers/dotnet.py:39-64 | After the directories exist the rule keeps the reporting contract and returns one of the three messages or `[]` |
| Dotnet.UpdateOutcome | instarepo/fixers/dotnet.py:44-64 | The message is "Updated" when an old workflow differed, "Added" when there was none, and "Removed appveyor" when only `appveyor.yml` was there; the files change accordingly |
| Dotnet.DotnetLaw | instarepo/fixers/dotnet.py:35-64 | The whole rule keeps the reporting contract, returns at most one message, and `[]` changes at most directories |
| Dotnet.DotnetOutcome | instarepo/fixers/dotnet.py:35-64 | For a repository that should be processed, from a clean checkout, the outcome and files are as in `UpdateOutcome` |
| Dotnet.MustHaveGitHubActionFix.Run | instarepo/fixers/dotnet.py:35-64 | The method ends as `Step` says |
| Dotnet.MustHaveGitHubActionFix.RunProcessStep | instarepo/fixers/dotnet.py:39-64 | After the applicability check, the method ends as `ProcessStep` says |
| Dotnet.MustHaveGitHubActionFix.RunWriteStep | instarepo/fixers/dotnet.py:49-59 | Writing, staging, removing `appveyor.yml` and committing end as `WriteStep` says |
| Dotnet.RunAppveyorStep | instarepo/fixers/dotnet.py:60-64 | Removing `appveyor.yml` and committing end as `AppveyorStep` says |
| Dotnet.UpdateLeaves | instarepo/fixers/dotnet.py:44-64 | A reported change leaves the directories as they were, the current workflow in place and no `appveyor.yml` |
| Dotnet.WriteStaged | instarepo/fixers/dotnet.py:49-59 | With the directory in place, the write step commits the working copy with `build.yml` set and `appveyor.yml` gone from files and index |
| Dotnet.DotnetSecondRun | instarepo/fixers/dotnet.py:44-64 | A second run after a run that reported a change returns `[]` and changes nothing |
| Dotnet.UpToDate | instarepo/fixers/dotnet.py:60-64 | With the directories in place, the workflow current and no `appveyor.yml`, the rule does nothing |
| Readme.PathSegments | instarepo/fixers/readme.py:37 | The segments are non-empty and contain no `/` or `\` |
| Readme.DropEmpty | instarepo/fixers/readme.py:37 | Dropping empty segments keeps only non-empty segments of the input |
| Readme.AbsoluteSegments | instarepo/fixers/readme.py:37 | The segments of `"/"` plus a joined path are exactly the joined segments |
| Readme.PlainIsFileAt | instarepo/fixers/readme.py:39-42 | For segments without `.` or `..`, `isfile` of the joined path is membership of the joined name in the files |
| Readme.DotSegmentResolved | instarepo/fixers/readme.py:39-42 | A leading `.` segment is resolved away: `./rest` is a file exactly when `rest` is |
| Readme.ParentOfRootOutside | instarepo/fixers/readme.py:39-42 | A path starting with `..` leaves the repository and names none of its files |
| Readme.ExistingSuffix | instarepo/fixers/readme.py:38-45 | The search returns the first position whose suffix `os.path.isfile` accepts, with `.` and `..` resolved through the working copy's directories, or the end when there is none |
| Readme.NewFilename | instarepo/fixers/readme.py:35-46 | The result is the original name when no suffix is a file. Otherwise it is `"/"` plus the longest suffix that `os.path.isfile` accepts, as written, dot segments included |
| Readme.FindNewFilename | instarepo/fixers/readme.py:35-46 | The loop that drops leading segments, testing each suffix with `isfile`, computes `NewFilename` on the working copy |
| Readme.NewFilenameIdempotent | instarepo/fixers/readme.py:35-46 | Repairing a repaired path changes nothing |
| Readme.ExistingPathKept | instarepo/fixers/readme.py:38-43 | An absolute path that `isfile` accepts is kept as it is |
| Readme.MovedUpOne | instarepo/fixers/readme.py:38-45 | A path that is not a file, one folder below a file `isfile` accepts, is repaired to the shorter path |
| Readme.DotPathKept | instarepo/fixers/readme.py:38-43 | `/./path` to an existing file is kept as written, since `isfile` resolves the `.` |
| Readme.ScreenshotMovedUp | instarepo/fixers/readme.py:35-46 | With `scrnshot.png` at the root and not under `GodFather`, `/GodFather/scrnshot.png` becomes `/scrnshot.png`, the replacement the unit test expects |
| Readme.ImageConvertKeeps | instarepo/fixers/readme.py:26-33 | An image whose path needs no repair is replaced by its own text |
| Readme.ConvertKeepsResolved | instarepo/fixers/readme.py:23-33 | When every image path is already right, conversion returns the text unchanged |
| Readme.ConvertOneImage | instarepo/fixers/readme.py:23-33 | A README with one image and no other `!` is rewritten at that image alone: its path is replaced by `NewFilename` and the alt text, title and surrounding text are kept |
| Readme.ScreenshotReadme | instarepo/fixers/readme_test.py:7-29 | Around any text without `!`, the screenshot image `/GodFather/scrnshot.png` is rewritten to `/scrnshot.png` when only the root file exists |
| Readme.ScreenshotTestReadme | instarepo/fixers/readme_test.py:8-19 | The unit test's README text becomes the expected text, with the image pointed at `/scrnshot.png` and every other character kept |
| Readme.ReadmeImageFix | instarepo/fixers/readme.py:13-24 | The rule targets `README.md` with message `"Fixed broken images in README"` and converts images |
| Readme.ReadmeImageOnlyRepairs | instarepo/fixers/readme.py:13-33 | A README whose images all resolve is left unchanged and nothing is reported |
| Regex.MarkdownImageAt | instarepo/fixers/readme.py:8-10 | A match starts with `![`, its group starts with `/` and holds path characters only, and `?raw=true "` follows it |
| Regex.TravisBadgeAt | instarepo/fixers/ci.py:38-40 | A match starts with the badge prefix and lies inside the text |
| Regex.SubIdentity | instarepo/fixers/readme.py:23-24 | A substitution that replaces every match by its own text gives the text back |
| Regex.NoMatchNoChange | instarepo/fixers/ci.py:43-44 | Without a match, substitution changes nothing |
| Regex.LogLevelTag | instarepo/fixers/maven.py:174 | The tag length found is the only `[UPPERCASE]` tag at the start of the line, and none is found when there is none |
| Regex.MatchAt | instarepo/fixers/readme.py:8-10 | A match found at a position starts there and lies inside the text, with its group inside the match |
| ReadmeImage.LegacyImageConvertLength | instarepo/fixers/readme_image.py:20-27 | The older replacement is the newer one with all README text before and after the match added around it |
| ReadmeImage.SampleMatch | instarepo/fixers/readme_image.py:8-10 | In the sample README the image is found at position 1 and nowhere before it |
| ReadmeImage.NewerKeepsSample | instarepo/fixers/readme.py:26-33 | The newer repair leaves the sample README unchanged when its image path is right |
| ReadmeImage.LegacyDuplicatesText | instarepo/fixers/readme_image.py:20-27 | The older repair turns the same README into `"x"` plus the README, so it differs from the newer one |
| ReadmeImage.LegacyReadmeImageFix | instarepo/fixers/readme_image.py:13-18 | The older rule targets `README.md` with the same message and the older conversion |
| RepoDescription.KeptLine | instarepo/fixers/repo_description.py:52-54 | A line yields at most one description candidate |
| RepoDescription.KeptLineMember | instarepo/fixers/repo_description.py:52-54 | A line yields the text `x` exactly when `x` is the stripped line and starts with `>` or an ASCII letter |
| RepoDescription.DescriptionLines | instarepo/fixers/repo_description.py:52-54 | There are no more candidates than lines |
| RepoDescription.DescriptionLinesAppend | instarepo/fixers/repo_description.py:52-54 | The filter respects concatenation, so candidates keep their order |
| RepoDescription.DescriptionLinesMember | instarepo/fixers/repo_description.py:52-54 | A text is a candidate exactly when it is a stripped line starting with `>` or an ASCII letter |
| RepoDescription.DescriptionFromLines | instarepo/fixers/repo_description.py:58-64 | There is no description exactly when there are no candidates, and a stripped first candidate gives a stripped description |
| RepoDescription.QuotedDescription | instarepo/fixers/repo_description.py:61-63 | A first candidate `>` plus text gives that text |
| RepoDescription.QuotedSpacedDescription | instarepo/fixers/repo_description.py:61-63 | A first candidate `> ` plus text gives that text, stripped |
| RepoDescription.PlainDescription | instarepo/fixers/repo_description.py:61-64 | A first candidate not starting with `>` is the description |
| RepoDescription.ReadmeDescription | instarepo/fixers/repo_description.py:44-55 | Without `README.md` there is no description; with it, there is one exactly when some line is a candidate |
| RepoDescription.ReadmeDescriptionOneLine | instarepo/fixers/repo_description.py:44-64 | A description found is stripped and spans one line |
| RepoDescription.Run | instarepo/fixers/repo_description.py:30-42 | The rule returns `[]` and sends exactly the calls `DescriptionCalls` gives |
| RepoDescription.DescriptionCallsLaw | instarepo/fixers/repo_description.py:30-42 | `update_description` is sent exactly when the client can write, the description is non-empty and it differs from the repository's; it carries that description |
| RepoDescription.DescriptionSettles | instarepo/fixers/repo_description.py:34-40 | Once the repository has the README's description, nothing more is sent |
| RepoDescription.CreatedReadmeDescription | instarepo/fixers/must_have_readme.py:21-25 | For a README the README rule created from a one-line, stripped description that is empty or starts with a letter, the description read back is that description, or none when it is empty |
| RepoDescription.CreatedReadmeSettles | instarepo/fixers/repo_description.py:30-42 | After the README rule created the README from such a description, the description rule sends nothing |
| Config.NewConfig | instarepo/fixers/config.py:2-3 | A fresh configuration has no repository and no default settings |
| Config.FirstHavingSpec | instarepo/fixers/config.py:5-15 | The lookup finds nothing exactly when no layer has the key; otherwise it finds the first layer that has it |
| Config.GetSettingLayers | instarepo/fixers/config.py:5-15 | `get_setting` is a lookup in the repository's own settings and then the defaults |
| Config.Config.Layers | instarepo/fixers/config.py:5-15 | At most two layers are consulted: the repository's own settings and the defaults |
| Config.RepoSettingWins | instarepo/fixers/config.py:6-11 | A repository-specific setting takes precedence |
| Config.DefaultApplies | instarepo/fixers/config.py:12-15 | Without a repository-specific setting, the default is returned when present |
| Config.NoSetting | instarepo/fixers/config.py:5-15 | The result is `None` exactly when neither the repository nor the defaults have the key |
| Config.FreshConfigEmpty | instarepo/fixers/config.py:2-15 | Every lookup on a fresh configuration is `None` |
| RepoSource.Filter | instarepo/repo_source.py:13-19 | A filter keeps only repositories that pass it, and never more than it was given |
| RepoSource.FilterMember | instarepo/repo_source.py:13-19 | A repository is kept exactly when it is in the listing and passes |
| RepoSource.FilterAppend | instarepo/repo_source.py:13-19 | Filtering respects concatenation, so the result keeps the listing's order |
| RepoSource.FilterFilter | instarepo/repo_source.py:14-18 | Chained filters are one filter by the conjunction |
| RepoSource.GetReposFilter | instarepo/repo_source.py:6-19 | `get_repos` is one order-preserving filter by its three conditions |
| RepoSource.GetReposMember | instarepo/repo_source.py:14-18 | A repository is returned exactly when it is listed, not archived, not a fork unless forks are wanted, and starts with the prefix when one is given |
| RepoSource.GetReposAppend | instarepo/repo_source.py:13-19 | The result for a concatenated listing is the concatenation of the results |
| FixCommand.KeepNonEmpty | instarepo/commands/fix.py:155-156 | No more lines are kept than given |
| FixCommand.KeepNonEmptyMember | instarepo/commands/fix.py:153-156 | A line is kept exactly when it is the non-empty stripped form of some input line |
| FixCommand.NonEmptyLinesShape | instarepo/commands/fix.py:153-156 | Every kept line is non-empty, stripped and has no newline |
| FixCommand.BlankHasNoLines | instarepo/commands/fix.py:153-156 | A change made only of whitespace contributes no line |
| FixCommand.OneLine | instarepo/commands/fix.py:153-156 | A stripped one-line change is its own single line |
| FixCommand.TwoLineSplit | instarepo/commands/fix.py:153-156 | Two lines each ending in a newline give exactly those two lines |
| FixCommand.AppendBullet | instarepo/commands/fix.py:142-149 | The inner loop appends `"- "` before the first line and `"  "` before each later one, each line ending with a newline |
| FixCommand.FormatBody | instarepo/commands/fix.py:138-150 | The loop builds exactly `Body(changes)` |
| FixCommand.BodyHeaderFirst | instarepo/commands/fix.py:138-139 | The body starts with the header, and an empty change list gives exactly the header |
| FixCommand.BodyAppend | instarepo/commands/fix.py:140-149 | Rendering more changes only appends to the body |
| FixCommand.BlankChangeInvisible | instarepo/commands/fix.py:140-156 | A blank change adds nothing to the body |
| FixCommand.OneLineChanges | instarepo/commands/fix.py:140-149 | One-line changes render as one `"- "` item each, in order |
| FixCommand.BodyOneChange | instarepo/commands/fix_test.py:8-20 | `["Simple change"]` renders as the header and `"- Simple change\n"` |
| FixCommand.BodyTwoLineChange | instarepo/commands/fix_test.py:34-44 | A change of two lines renders as `"- first\n  second\n"` after the header |
| FixCommand.PrepareLaw | instarepo/commands/fix.py:87-96 | After preparation the work branch is checked out. When only the remote has it, it is checked out from there, clean. Otherwise it is a new branch at the current commit, and creating it fails exactly when a local one exists or no branch is checked out |
| FixCommand.Warnings | instarepo/commands/fix.py:71-85 | A warning is logged exactly when git's answer differs from "the rules reported changes" |
| FixCommand.ReconcileQuiet | instarepo/commands/fix.py:71-85 | When the branches agree, nothing is pushed or sent, and a warning appears exactly when the rules reported changes |
| FixCommand.ReconcileDryRun | instarepo/commands/fix.py:123-126 | In a dry run nothing is pushed or sent even when the branches differ |
| FixCommand.ReconcilePublishes | instarepo/commands/fix.py:123-135 | Otherwise the branch is pushed and one pull request is sent from `instarepo_branch` to the default branch, titled `"instarepo automatic PR"`, with the rendered body |
| FixCommand.ReconcilePushFails | instarepo/commands/fix.py:127 | A failed push ends processing before any pull request |
| FixCommand.InOrder | instarepo/commands/fix.py:99-110 | The driver's list of working-copy rules has six entries |
| FixCommand.InOrderReported | instarepo/commands/fix.py:99-110 | Each of those six rules keeps the reporting contract, whatever their settings |
| FixCommand.RegistryReported | instarepo/commands/fix.py:98-116 | The whole rule list keeps the reporting contract: one commit per reported change, in order |
| FixCommand.RepoProcessor.Prepare | instarepo/commands/fix.py:87-96 | The method changes the working copy as `PrepareStep` says, or reports its error and changes nothing |
| FixCommand.RepoProcessor.RunFixes | instarepo/commands/fix.py:98-116 | The composite's outcome and state, followed by the description rule's calls when no rule raised |
| FixCommand.RepoProcessor.HasChangesNow | instarepo/commands/fix.py:118-121 | The branch comparison is `HasChanges`: the two refs resolve to different commits, and an unresolvable ref is an error |
| FixCommand.RepoProcessor.CreateMergeRequest | instarepo/commands/fix.py:123-135 | The method pushes and sends as `MergeRequestEffect` says |
| FixCommand.RepoProcessor.Publish | instarepo/commands/fix.py:71-85 | The method compares, warns and publishes as `Reconcile` says |
| FixCommand.RepoProcessor.Process | instarepo/commands/fix.py:68-85 | Processing one repository ends with the error, working copy, GitHub calls and warnings of `ProcessEffect` |
| FixCommand.RepoProcessor.FixAndPublish | instarepo/commands/fix.py:70-85 | After preparation, running the rules and publishing end as `FixEffect` says |
| FixCommand.RepoProcessor.constructor | instarepo/commands/fix.py:55-66 | A processor holds the repository, the client, the working copy and the dry-run flag, starts with no warnings, and its rules are the driver's six in order |
| FixCommand.ReconcileCalls | instarepo/commands/fix.py:71-85 | Publishing only appends to the GitHub calls already made |
| FixCommand.Registry | instarepo/commands/fix.py:99-110 | The driver's list has six rules; its licence rule writes the MIT template filled with the current year and the git user's name |
| Git.WriteFile | instarepo/fixers/base.py:33-34 | A write succeeds exactly when the path is not a directory and its parent is, and sets only that file |
| Git.Add | instarepo/git.py:15-16 | `git add` fails on an unknown path, and otherwise stages the file or its removal |
| Git.Rm | instarepo/fixers/dotnet.py:86-87 | `git rm` succeeds on an unmodified tracked file and removes it from the working copy and the index |
| Git.CommitIndex | instarepo/git.py:18-19 | A commit succeeds exactly when on a branch with something staged, and appends one commit with the message |
| Git.CreateBranch | instarepo/git.py:8-13 | `checkout -b` succeeds exactly when a branch is checked out and the name is new; the new branch starts at the current commit and becomes current |
| Git.CheckoutBranch | instarepo/commands/fix.py:94 | Checking out succeeds exactly when the branch exists locally or on the remote. It then becomes current, taken from the remote when there is no local one, and the checkout is clean |
| Git.Mkdir | instarepo/fixers/base.py:86-88 | `mkdir` succeeds exactly when nothing exists at the path and the parent is a directory, and adds only that directory |
| Git.Push | instarepo/git.py:21-24 | A push records the current branch's history on the remote |
| Git.RevParse | instarepo/git.py:26-37 | A local ref resolves exactly when the branch exists; `remotes/origin/<b>` exactly when the remote branch does |
| Git.AppendedTrans | instarepo/fixers/base.py:11-15 | Commits appended by two rules in turn are appended by their sequence, messages concatenated |
| Git.RootEntries | instarepo/fixers/vb6.py:11-12 | The scanned root entries are exactly the root names, each once, with their file flags |
| Git.RootFileEntry | instarepo/fixers/vb6.py:11-13 | A scanned entry is a file named `p` exactly when `p` is a file at the root |
| Git.Parent | instarepo/fixers/base.py:61 | The parent of a path is empty or a proper prefix of it |
| Git.GitWorkingDir.constructor | instarepo/git.py:5-6 | A working directory object starts in the given state |
| Git.GitWorkingDir.ReadFile | instarepo/fixers/base.py:28-29 | Reading gives the file's text when it is a file, and nothing otherwise |
| Git.GitWorkingDir.Write | instarepo/fixers/base.py:33-34 | Writing changes the state as `WriteFile` says, or reports its error and changes nothing |
| Git.GitWorkingDir.MakeDir | instarepo/fixers/base.py:86-88 | Creating a directory changes the state as `Mkdir` says, or reports its error and changes nothing |
| Git.GitWorkingDir.Stage | instarepo/git.py:15-16 | `add` changes the state as `Add` says, or reports the failed command and changes nothing |
| Git.GitWorkingDir.Remove | instarepo/fixers/ci.py:22-23 | `rm` changes the state as `Rm` says, or reports the failed command and changes nothing |
| Git.GitWorkingDir.CommitAll | instarepo/git.py:18-19 | `commit` changes the state as `CommitIndex` says, or reports the failed command and changes nothing |
| Git.GitWorkingDir.Apply | instarepo/git.py:8-24 | Any git command is applied as its function says, or fails with no change, as `check=True` makes it raise |
| GitHub.GitHubClient.CreateMergeRequest | instarepo/github.py:92-109 | The client records one pull request with the given fields, and the read-only client records none |
| GitHub.GitHubClient.SetDescription | instarepo/github.py:111-119 | The client records one description update, and the read-only client records none |
| GitHub.GitHubClient.constructor | instarepo/commands/fix.py:19-26 | A new client has the chosen access and has sent nothing |

## Left out

- I/O is modelled as a state, not performed. Subprocesses, HTTP, clocks and logging are not modelled; their results are parameters:
  - `mvn` runs are given as a record of exit code, output and rewritten POM;
  - the JEDI Code Format run is given as a function of the file text;
  - the `.sln` tokenizer is given as a function from text to tokens;
  - downloads are given as a result;
  - the current year and `git config user.name` are given as values;
  - the repository listing is given as a sequence.
- Logging is kept only where it is behaviour: the driver's warnings are returned as a list. Info and debug messages are left out.
- GitHub.GitHubClient.CreateMergeRequest: an HTTP error from the API (`raise_for_status`) is not modelled; every request is taken to succeed. The same holds for GitHub.GitHubClient.SetDescription.
- `os.linesep` is taken to be `"\n"`. Python's universal-newline translation on reading and writing is not modelled.
- File modification times in `run_step` are modelled by whether the `mvn` step rewrote `pom.xml`.
- `sort_pom` is a given total function of the POM text, applied before every Maven commit. Its subprocess and its unchecked exit status are not modelled.
- The XML parsing and writing in `remove_snapshot_parent_pom` are modelled as a parsed record of optional parent fields and a given rewrite of the text.
- `get_latest_artifact_version` is an input that may fail.
- The RE_MARKDOWN_IMAGE and RE_BADGE regular expressions are hand-written matchers over the text, not a general regex engine.
- Regex.MarkdownImageAt: `\w` is taken as the ASCII letters, digits and `_`, as the comment at `instarepo/fixers/readme.py:7` says. Python 3's `\w` on `str` also matches non-ASCII letters and digits. So a path such as `/imágenes/a.png` is matched by the source but not by the model, and the model leaves that image unrepaired.
- Readme.NewFilename: `isfile` is modelled on the working copy. `.` and `..` are resolved through its directories, and a `..` that climbs above the repository root names no file. Files outside the working copy and symbolic links are not modelled.
- `os.scandir` order is taken to be name order.
- `git.py` as given has no `rm`, `user_name`, `checkout_branch` or `isfile`. Those calls are modelled as the usual git commands. `rev_parse` success is modelled as the ref resolving; a resolved ref always has a non-empty SHA.
- `FixCommand.run`, the clone into a temporary directory and the directory's removal are not modelled. `RepoProcessor` starts from a given working copy.
- `get_all_repos`' sort and direction are folded into the given listing.
- FixCommand.Registry: in the source, `MavenFix(self.git, self.repo)` passes the repository positionally to a constructor that accepts only keyword extras, which would raise a TypeError before any rule runs. The model runs the Maven rule as intended.
- FixCommand.Registry: `readme_image.ReadmeFix` subclasses `instarepo.fix.SingleFileFix`, which `fix.py` does not define. The model runs the repaired converter of `readme.py` in its place; see Findings.
- FixCommand.RepoProcessor.RunFixes: the description rule is run after the six working-copy rules rather than inside the composite. It returns `[]` and touches only GitHub, so results and commits are the same.
- FixCommand.RepoProcessor.constructor: takes the rule values as arguments; `Registry` names the ones `run_fixes` builds.
- MissingFiles.LegacyMissingFileFix.Run: `write(None)` for a rule without contents is modelled as an empty file followed by a raised TypeError.
- Templates.LicenseContents: the filled licence is proved correct for any template shaped like it (`FillPlaceholdersLaw`). That the fixed licence text contains no other `[` is not proved.
- `instarepo/fixers/context.py` and the `.NET` rule's `Context` are not part of this model. The rule takes the default branch and the tokenizer directly.
- The `parsers` combinators behind `SlnParser` are not part of this model. `SlnParser` works on the token sequence.
- Settings values are strings. The nested settings dictionary is two optional maps.

## Findings

| source | as written | input that shows it | evidently intended | confidence | as-written member | corrected member |
|---|---|---|---|---|---|---|
| instarepo/fixers/readme_image.py:20-27 | `image_convert` builds each replacement from `m.string[:start("filename")]` and `m.string[end("filename"):]`, the whole README before and after the path, so each image is replaced by nearly the whole document | README `x![](/b?raw=true "")` with file `b` present: the result is `x` followed by the whole README again | keep only the matched text around the new path, as `readme.py:26-33` does | not executed | ReadmeImage.LegacyDuplicatesText | ReadmeImage.NewerKeepsSample |
