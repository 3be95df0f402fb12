/** The two formats of a repository's sources file, and the conversion of the one into the other. */
module Sources {
  import opened Text

  const WRITTEN_BY := "# Written by ubuntu-pro-client"
  const COMPONENTS := "Components: main"
  const SIGNED_BY := "Signed-By: /usr/share/keyrings/"
  const UPDATES := "-updates"

  // ---------------------------------------------------------------------------------------------------------
  // Writing

  /** Only suites of the series, and the updates suites only where updates are enabled. */
  predicate Enabled(suite: string, series: string, updatesEnabled: bool) {
    Contains(suite, series) && (updatesEnabled || !Contains(suite, UPDATES))
  }

  function EnabledSuites(suites: seq<string>, series: string, updatesEnabled: bool): seq<string> {
    if suites == [] then []
    else (if Enabled(suites[0], series, updatesEnabled) then [suites[0]] else [])
         + EnabledSuites(suites[1..], series, updatesEnabled)
  }

  function DebLine(url: string, suite: string): string {
    "deb " + url + " " + suite + " main"
  }

  function DebSrcLine(url: string, suite: string): string {
    "# deb-src " + url + " " + suite + " main"
  }

  /** The two lines that are written for a suite. */
  function Entry(maybeComment: string, url: string, suite: string): string {
    maybeComment + DebLine(url, suite) + "\n" + (DebSrcLine(url, suite) + "\n")
  }

  /** The lines of one suite: none for another series, commented out where it is not enabled. */
  function SuiteLines(suite: string, series: string, updatesEnabled: bool, url: string): seq<string> {
    if !Contains(suite, series) then []
    else [
      (if Contains(suite, UPDATES) && !updatesEnabled then "# " else "") + DebLine(url, suite),
      DebSrcLine(url, suite)
    ]
  }

  function ListLines(suites: seq<string>, series: string, updatesEnabled: bool, url: string): seq<string> {
    if suites == [] then []
    else SuiteLines(suites[0], series, updatesEnabled, url) + ListLines(suites[1..], series, updatesEnabled, url)
  }

  /** Every line with its newline. */
  function Content(lines: seq<string>): string {
    if lines == [] then "" else lines[0] + "\n" + Content(lines[1..])
  }

  function SourcesLines(suites: seq<string>, url: string, keyringFile: string, includeDebSrc: bool): seq<string> {
    [
      WRITTEN_BY,
      "Types: deb" + if includeDebSrc then " deb-src" else "",
      "URIs: " + url,
      "Suites: " + Join(" ", suites),
      COMPONENTS,
      SIGNED_BY + keyringFile
    ]
  }

  // ---------------------------------------------------------------------------------------------------------
  // The code

  method GetListFileContent(suites: seq<string>, series: string, updatesEnabled: bool, repoUrl: string)
    returns (content: string)
    ensures content == Content(ListLines(suites, series, updatesEnabled, repoUrl))
  {
    hide *;
    content := "";
    var i := 0;
    ghost var rest := Content(ListLines(suites, series, updatesEnabled, repoUrl));
    while i < |suites|
      invariant 0 <= i <= |suites| && rest == Content(ListLines(suites[i..], series, updatesEnabled, repoUrl))
      invariant content + rest == Content(ListLines(suites, series, updatesEnabled, repoUrl))
    {
      var suite := suites[i];
      ListLinesStep(suites, i, series, updatesEnabled, repoUrl);
      rest := Content(ListLines(suites[i + 1..], series, updatesEnabled, repoUrl));
      Assoc(content, SuiteText(suite, series, updatesEnabled, repoUrl), rest);
      i := i + 1;
      if Contains(suite, series) {
        var maybeComment := "";
        if Contains(suite, UPDATES) && !updatesEnabled { maybeComment := "# "; }
        SuiteTextIs(suite, series, updatesEnabled, repoUrl, maybeComment);
        content := content + Entry(maybeComment, repoUrl, suite);
      } else {
        NoSuiteText(content, suite, series, updatesEnabled, repoUrl);
      }
    }
    NoLines(suites, series, updatesEnabled, repoUrl);
  }

  lemma NoLines(suites: seq<string>, series: string, updatesEnabled: bool, url: string)
    ensures Content(ListLines(suites[|suites|..], series, updatesEnabled, url)) == ""
  {
  }

  lemma Assoc(s: string, t: string, u: string)
    ensures s + (t + u) == (s + t) + u
  {
  }

  lemma SuiteTextIs(suite: string, series: string, updatesEnabled: bool, url: string, maybeComment: string)
    requires Contains(suite, series)
    requires maybeComment == if Contains(suite, UPDATES) && !updatesEnabled then "# " else ""
    ensures SuiteText(suite, series, updatesEnabled, url) == Entry(maybeComment, url, suite)
  {
  }

  lemma NoSuiteText(content: string, suite: string, series: string, updatesEnabled: bool, url: string)
    requires !Contains(suite, series)
    ensures content + SuiteText(suite, series, updatesEnabled, url) == content
  {
  }

  /** The lines of one suite as they are written. */
  ghost function SuiteText(suite: string, series: string, updatesEnabled: bool, url: string): string {
    if !Contains(suite, series) then ""
    else Entry(if Contains(suite, UPDATES) && !updatesEnabled then "# " else "", url, suite)
  }

  lemma ListLinesStep(suites: seq<string>, i: nat, series: string, updatesEnabled: bool, url: string)
    requires i < |suites|
    ensures Content(ListLines(suites[i..], series, updatesEnabled, url))
      == SuiteText(suites[i], series, updatesEnabled, url)
        + Content(ListLines(suites[i + 1..], series, updatesEnabled, url))
  {
    assert suites[i..][1..] == suites[i + 1..];
    SuiteContent(suites[i], series, updatesEnabled, url);
    ContentConcat(SuiteLines(suites[i], series, updatesEnabled, url),
                  ListLines(suites[i + 1..], series, updatesEnabled, url));
  }

  lemma SuiteContent(suite: string, series: string, updatesEnabled: bool, url: string)
    ensures Content(SuiteLines(suite, series, updatesEnabled, url)) == SuiteText(suite, series, updatesEnabled, url)
  {
    if Contains(suite, series) {
      var lines := SuiteLines(suite, series, updatesEnabled, url);
      hide DebLine, DebSrcLine, Contains;
      assert lines[1..][1..] == [];
      assert Content(lines[1..]) == lines[1] + "\n";
    }
  }

  method GetSourcesFileContent(suites: seq<string>, series: string, updatesEnabled: bool, repoUrl: string,
                               keyringFile: string, includeDebSrc: bool)
    returns (content: string)
    ensures content
      == Content(SourcesLines(EnabledSuites(suites, series, updatesEnabled), repoUrl, keyringFile, includeDebSrc))
  {
    var appliable := [];
    var i := 0;
    while i < |suites|
      invariant 0 <= i <= |suites|
      invariant EnabledSuites(suites, series, updatesEnabled)
        == appliable + EnabledSuites(suites[i..], series, updatesEnabled)
    {
      assert suites[i..][1..] == suites[i + 1..];
      if Enabled(suites[i], series, updatesEnabled) { appliable := appliable + [suites[i]]; }
      i := i + 1;
    }
    assert suites[i..] == [] && appliable + [] == appliable;
    content := Content(SourcesLines(appliable, repoUrl, keyringFile, includeDebSrc));
  }

  // ---------------------------------------------------------------------------------------------------------
  // Lines and texts

  lemma {:induction false} ContentConcat(s: seq<string>, t: seq<string>)
    ensures Content(s + t) == Content(s) + Content(t)
  {
    if s == [] {
      assert s + t == t;
    } else {
      assert (s + t)[1..] == s[1..] + t;
      ContentConcat(s[1..], t);
    }
  }

  lemma {:induction false} ContentLines(lines: seq<string>)
    requires forall i | 0 <= i < |lines| :: NoBreak(lines[i])
    ensures SplitLines(Content(lines)) == lines
  {
    if lines != [] {
      ContentLines(lines[1..]);
      SplitFirstLine(lines[0], Content(lines[1..]));
    }
  }
}
