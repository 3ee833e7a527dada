/**
  The fixed file contents the missing-file rules write.  The MIT licence
  text appears identically in `fixers/missing_files.py` and
  `fixers/must_have_license.py`, and the Maven workflow identically in
  `fixers/missing_files.py` and `fixers/maven.py`; each is defined once here.
 */
module Templates {
  import opened Text

  /** The licence text up to the year placeholder. */
  const LicenseHead: string := "MIT License\n\nCopyright (c) "

  /** The licence text after the `[fullname]` placeholder. */
  const LicenseBody: string :=
    "\n" +
    "\n" +
    "Permission is hereby granted, free of charge, to any person obtaining a copy\n" +
    "of this software and associated documentation files (the \"Software\"), to deal\n" +
    "in the Software without restriction, including without limitation the rights\n" +
    "to use, copy, modify, merge, publish, distribute, sublicense, and/or sell\n" +
    "copies of the Software, and to permit persons to whom the Software is\n" +
    "furnished to do so, subject to the following conditions:\n" +
    "\n" +
    "The above copyright notice and this permission notice shall be included in all\n" +
    "copies or substantial portions of the Software.\n" +
    "\n" +
    "THE SOFTWARE IS PROVIDED \"AS IS\", WITHOUT WARRANTY OF ANY KIND, EXPRESS OR\n" +
    "IMPLIED, INCLUDING BUT NOT LIMITED TO THE WARRANTIES OF MERCHANTABILITY,\n" +
    "FITNESS FOR A PARTICULAR PURPOSE AND NONINFRINGEMENT. IN NO EVENT SHALL THE\n" +
    "AUTHORS OR COPYRIGHT HOLDERS BE LIABLE FOR ANY CLAIM, DAMAGES OR OTHER\n" +
    "LIABILITY, WHETHER IN AN ACTION OF CONTRACT, TORT OR OTHERWISE, ARISING FROM,\n" +
    "OUT OF OR IN CONNECTION WITH THE SOFTWARE OR THE USE OR OTHER DEALINGS IN THE\n" +
    "SOFTWARE.\n"

  /** `MIT_LICENSE`, with its `[year]` and `[fullname]` placeholders. */
  const MitLicense: string := LicenseHead + "[year] [fullname]" + LicenseBody

  const EditorConfig: string :=
    "# Editor configuration, see https://editorconfig.org\n" +
    "root = true\n" +
    "\n" +
    "[*]\n" +
    "charset = utf-8\n" +
    "indent_style = space\n" +
    "indent_size = 4\n" +
    "insert_final_newline = true\n" +
    "trim_trailing_whitespace = true\n" +
    "max_line_length = 120\n" +
    "\n" +
    "[*.sh]\n" +
    "end_of_line = lf\n"

  const FundingYml: string :=
    "# These are supported funding model platforms\n" +
    "\n" +
    "github: # Replace with up to 4 GitHub Sponsors-enabled usernames e.g., [user1, user2]\n" +
    "patreon: # Replace with a single Patreon username\n" +
    "open_collective: # Replace with a single Open Collective username\n" +
    "ko_fi: # Replace with a single Ko-fi username\n" +
    "tidelift: # Replace with a single Tidelift platform-name/package-name e.g., npm/babel\n" +
    "community_bridge: # Replace with a single Community Bridge project-name e.g., cloud-foundry\n" +
    "liberapay: # Replace with a single Liberapay username\n" +
    "issuehunt: # Replace with a single IssueHunt username\n" +
    "otechie: # Replace with a single Otechie username\n" +
    "custom: [\'https://ngeor.com/support/\']\n"

  const MavenYml: string :=
    "# This workflow will build a Java project with Maven, and cache/restore any dependencies to improve the workflow execution time\n" +
    "# For more information see: https://help.github.com/actions/language-and-framework-guides/building-and-testing-java-with-maven\n" +
    "\n" +
    "name: Java CI with Maven\n" +
    "\n" +
    "on:\n" +
    "  push:\n" +
    "    branches: [ trunk ]\n" +
    "  pull_request:\n" +
    "    branches: [ trunk ]\n" +
    "\n" +
    "jobs:\n" +
    "  build:\n" +
    "\n" +
    "    runs-on: ubuntu-latest\n" +
    "\n" +
    "    steps:\n" +
    "    - uses: actions/checkout@v2\n" +
    "    - name: Set up JDK 11\n" +
    "      uses: actions/setup-java@v2\n" +
    "      with:\n" +
    "        java-version: \'11\'\n" +
    "        distribution: \'adopt\'\n" +
    "        cache: maven\n" +
    "    - name: Build with Maven\n" +
    "      run: mvn -B package --file pom.xml\n"

  const LazarusGitIgnore: string :=
    "*.o\n" +
    "*.ppu\n" +
    "*.obj\n" +
    "*.exe\n" +
    "*.dll\n" +
    "*.compiled\n" +
    "*.bak\n" +
    "*.lps\n" +
    "backup/\n"

  const Vb6GitIgnore: string :=
    "*.exe\n" +
    "*.dll\n" +
    "*.ocx\n" +
    "*.vbw\n"

  /** The .NET workflow before the branch name is put in place of `trunk`. */
  const DotnetWorkflow: string :=
    "name: CI\n" +
    "\n" +
    "on:\n" +
    "  push:\n" +
    "    branches: [ trunk ]\n" +
    "  pull_request:\n" +
    "    branches: [ trunk ]\n" +
    "\n" +
    "jobs:\n" +
    "  build:\n" +
    "    runs-on: ubuntu-latest\n" +
    "    steps:\n" +
    "    - uses: actions/checkout@v2\n" +
    "    - name: Set up .NET\n" +
    "      uses: actions/setup-dotnet@v1\n" +
    "      with:\n" +
    "        dotnet-version: \'3.1.x\'\n" +
    "    - run: dotnet build\n" +
    "    - run: dotnet test -v normal\n"

  predicate IsDigit(c: char)
  {
    '0' <= c <= '9'
  }

  /** Python's `str(n)` for a natural number. */
  function DecimalString(n: nat): (r: string)
    ensures |r| > 0
    ensures forall k :: 0 <= k < |r| ==> IsDigit(r[k])
  {
    var d := [(('0' as int) + n % 10) as char];
    if n < 10 then d else DecimalString(n / 10) + d
  }

  /** The number a string of decimal digits denotes. */
  function DigitsValue(s: string): nat
    requires forall k :: 0 <= k < |s| ==> IsDigit(s[k])
  {
    if s == [] then 0
    else
      assert IsDigit(s[|s| - 1]);
      DigitsValue(s[..|s| - 1]) * 10 + ((s[|s| - 1] as int) - ('0' as int))
  }

  /** `str(n)` reads back as `n` and has no leading zero, so it is the
      one canonical decimal form of `n`. */
  lemma {:induction false} DecimalStringValue(n: nat)
    ensures DigitsValue(DecimalString(n)) == n
    ensures DecimalString(n)[0] == '0' <==> n == 0
  {
    var d := [(('0' as int) + n % 10) as char];
    if n >= 10 {
      var r := DecimalString(n);
      DecimalStringValue(n / 10);
      assert r == DecimalString(n / 10) + d;
      assert r[..|r| - 1] == DecimalString(n / 10);
    }
  }

  /** The licence text for a year and the git user's name: `[year]`
      replaced first, then `[fullname]`. */
  function LicenseContents(year: nat, fullName: string): string
  {
    FillPlaceholders(MitLicense, DecimalString(year), fullName)
  }

  function FillPlaceholders(template: string, year: string, fullName: string): string
  {
    Replace(Replace(template, "[year]", year), "[fullname]", fullName)
  }

  /** Replacing `[year]` leaves a following `[fullname]` in place. */
  lemma YearPass(head: string, mid: string, body: string, year: string)
    requires '[' !in head && '[' !in mid && '[' !in body
    ensures Replace(head + ("[year]" + (mid + ("[fullname]" + body))), "[year]", year)
      == head + (year + (mid + ("[fullname]" + body)))
  {
    var f := "[fullname]" + body;
    ReplaceAppend(head, "[year]" + (mid + f), "[year]", year);
    ReplaceFront(mid + f, "[year]", year);
    ReplaceAppend(mid, f, "[year]", year);
    NameSurvivesYear(body, year);
  }

  lemma NameSurvivesYear(body: string, year: string)
    requires '[' !in body
    ensures Replace("[fullname]" + body, "[year]", year) == "[fullname]" + body
  {
    var f := "[fullname]" + body;
    assert f[1] == 'f' && "[year]"[1] == 'y';
    assert f[..6][1] != "[year]"[1];
    assert f[1..] == "fullname]" + body;
    ReplaceAbsent("fullname]" + body, "[year]", year);
    assert f == [f[0]] + f[1..];
  }

  lemma NamePass(prefix: string, body: string, fullName: string)
    requires '[' !in prefix && '[' !in body
    ensures Replace(prefix + ("[fullname]" + body), "[fullname]", fullName) == prefix + (fullName + body)
  {
    ReplaceAppend(prefix, "[fullname]" + body, "[fullname]", fullName);
    ReplaceFront(body, "[fullname]", fullName);
    ReplaceAbsent(body, "[fullname]", fullName);
  }

  /** Filling a template shaped like the licence, with no other `[` in its
      text and none in the year, puts the year and the name exactly where
      the placeholders were, whatever the name contains. */
  lemma FillPlaceholdersLaw(head: string, mid: string, body: string, year: string, fullName: string)
    requires '[' !in head && '[' !in mid && '[' !in body && '[' !in year
    ensures FillPlaceholders(head + "[year]" + mid + "[fullname]" + body, year, fullName)
      == head + year + mid + fullName + body
  {
    assert head + "[year]" + mid + "[fullname]" + body == head + ("[year]" + (mid + ("[fullname]" + body)));
    YearPass(head, mid, body, year);
    var prefix := head + year + mid;
    assert head + (year + (mid + ("[fullname]" + body))) == prefix + ("[fullname]" + body);
    assert '[' !in prefix;
    NamePass(prefix, body, fullName);
  }

  /** A year has no `[` in it, so the year placeholder never produces a second one. */
  lemma YearHasNoBracket(year: nat)
    ensures '[' !in DecimalString(year)
  {
    var y := DecimalString(year);
    forall k | 0 <= k < |y| ensures y[k] != '[' {
      assert IsDigit(y[k]);
    }
  }
}
