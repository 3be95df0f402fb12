/** The texts of both formats, and the conversion of any list file. */
module SourcesWords {
  import opened Json
  import opened Text
  import opened Sources
  import opened SourcesLaws

  // ---------------------------------------------------------------------------------------------------------
  // Texts

  /** What is written for one suite of the series. */
  lemma ListText(suite: string, series: string, updatesEnabled: bool, url: string)
    requires Contains(suite, series)
    ensures Content(ListLines([suite], series, updatesEnabled, url))
      == (if Contains(suite, "-updates") && !updatesEnabled then "# " else "")
         + "deb " + url + " " + suite + " main\n" + "# deb-src " + url + " " + suite + " main\n"
  {
    var lines := SuiteLines(suite, series, updatesEnabled, url);
    assert [suite][1..] == [] && lines + [] == lines;
    assert ListLines([suite], series, updatesEnabled, url) == lines;
    SuiteContent(suite, series, updatesEnabled, url);
    var maybeComment := if Contains(suite, "-updates") && !updatesEnabled then "# " else "";
    assert Content(lines) == Entry(maybeComment, url, suite);
    hide Contains, ListLines, SuiteLines, Content;
    EntryText(maybeComment, url, suite);
  }

  lemma EntryText(maybeComment: string, url: string, suite: string)
    ensures Entry(maybeComment, url, suite)
      == maybeComment + "deb " + url + " " + suite + " main\n" + "# deb-src " + url + " " + suite + " main\n"
  {
    assert " main" + "\n" == " main\n";
  }

  /** Nothing is written for a suite of another series. */
  lemma OtherSeriesText(suite: string, series: string, updatesEnabled: bool, url: string)
    requires !Contains(suite, series)
    ensures ListLines([suite], series, updatesEnabled, url) == []
    ensures EnabledSuites([suite], series, updatesEnabled) == []
  {
    assert [suite][1..] == [];
  }

  /** The suite of a series is always enabled, its updates only where updates are. */
  lemma UpdatesSuites(series: string, updatesEnabled: bool)
    requires !Contains(series, "-updates")
    ensures EnabledSuites([series, series + "-updates"], series, updatesEnabled)
      == if updatesEnabled then [series, series + "-updates"] else [series]
  {
    var updates := series + "-updates";
    ContainsSelf(series);
    assert Text.At(updates, 0, series) && Text.At(updates, |series|, "-updates");
    assert Enabled(series, series, updatesEnabled);
    assert Contains(updates, series) && Contains(updates, "-updates");
    assert Enabled(updates, series, updatesEnabled) <==> updatesEnabled;
    hide Enabled, Contains;
    EnabledTwo(series, updates, series, updatesEnabled);
  }

  lemma EnabledTwo(s: string, t: string, series: string, updatesEnabled: bool)
    requires Enabled(s, series, updatesEnabled)
    ensures EnabledSuites([s, t], series, updatesEnabled)
      == if Enabled(t, series, updatesEnabled) then [s, t] else [s]
  {
    hide Enabled;
    assert [s, t][1..] == [t] && [t][1..] == [];
    assert EnabledSuites([t], series, updatesEnabled) == if Enabled(t, series, updatesEnabled) then [t] else [];
  }

  // ---------------------------------------------------------------------------------------------------------
  // The stanza

  lemma {:induction false} FieldFoundAt(lines: seq<string>, n: nat, name: string, value: string)
    requires n < |lines| && lines[n] == name + ": " + value
    requires forall i | 0 <= i < n :: !StartsWith(lines[i], name + ":")
    ensures FieldWords(lines, name) == Some(Split(value))
    decreases n
  {
    hide StartsWith, Split;
    if n == 0 {
      FieldLine(name, value);
      SplitAfterSpace(value);
    } else {
      FieldFoundAt(lines[1..], n - 1, name, value);
    }
  }

  lemma OtherStart(line: string, name: string, k: nat)
    requires k < |line| && k < |name| && line[k] != name[k]
    ensures !StartsWith(line, name + ":")
  {
    if |name + ":"| <= |line| { assert line[0..|name + ":"|][k] == line[k]; }
  }

  /** The stanza is for the main component, signed by the keyring of that name. */
  lemma StanzaOrigin(suites: seq<string>, url: string, keyringFile: string, includeDebSrc: bool)
    requires CleanStanza(suites, url, keyringFile) && Clean(keyringFile)
    ensures var lines := SplitLines(Content(SourcesLines(suites, url, keyringFile, includeDebSrc)));
      && FieldWords(lines, "Components") == Some(["main"])
      && FieldWords(lines, "Signed-By") == Some(["/usr/share/keyrings/" + keyringFile])
  {
    var lines := SourcesLines(suites, url, keyringFile, includeDebSrc);
    StanzaNoBreak(suites, url, keyringFile, includeDebSrc);
    hide NoBreak;
    ContentLines(lines);
    ComponentsField(lines);
    SignedByField(lines, keyringFile);
  }

  lemma ComponentsField(lines: seq<string>)
    requires |lines| == 6 && lines[4] == "Components: main"
    requires lines[0] != "" && lines[0][0] == '#' && lines[1] != "" && lines[1][0] == 'T'
    requires lines[2] != "" && lines[2][0] == 'U'
    requires lines[3] != "" && lines[3][0] == 'S'
    ensures FieldWords(lines, "Components") == Some(["main"])
  {
    hide StartsWith, Split;
    assert "Components: main" == "Components" + ": " + "main";
    forall i | 0 <= i < 4 ensures !StartsWith(lines[i], "Components" + ":") { OtherStart(lines[i], "Components", 0); }
    FieldFoundAt(lines, 4, "Components", "main");
    SplitLastWord("main");
  }

  lemma SignedByField(lines: seq<string>, keyringFile: string)
    requires |lines| == 6 && lines[4] != "" && lines[4][0] == 'C' && Clean(keyringFile)
    requires lines[5] == "Signed-By: /usr/share/keyrings/" + keyringFile
    requires lines[0] != "" && lines[0][0] == '#' && lines[1] != "" && lines[1][0] == 'T'
    requires lines[2] != "" && lines[2][0] == 'U'
    requires |lines[3]| > 1 && lines[3][1] == 'u'
    ensures FieldWords(lines, "Signed-By") == Some(["/usr/share/keyrings/" + keyringFile])
  {
    var value := "/usr/share/keyrings/" + keyringFile;
    hide StartsWith, Split;
    assert "Signed-By: /usr/share/keyrings/" == "Signed-By" + ": " + "/usr/share/keyrings/";
    assert lines[5] == "Signed-By" + ": " + value;
    forall i | 0 <= i < 5 ensures !StartsWith(lines[i], "Signed-By" + ":") {
      OtherStart(lines[i], "Signed-By", if i == 3 then 1 else 0);
    }
    FieldFoundAt(lines, 5, "Signed-By", value);
    KeyringClean(keyringFile);
    SplitLastWord(value);
  }

  lemma KeyringClean(keyringFile: string)
    requires Clean(keyringFile)
    ensures Clean("/usr/share/keyrings/" + keyringFile)
  {
    assert NoSpace("/usr/share/keyrings/");
  }

  // ---------------------------------------------------------------------------------------------------------
  // Any list file

  /** Lines of words. */
  ghost predicate Words(lines: seq<seq<string>>) {
    forall i | 0 <= i < |lines| :: lines[i] != [] && CleanAll(lines[i])
  }

  function Joined(lines: seq<seq<string>>): seq<string> {
    seq(|lines|, i requires 0 <= i < |lines| => Join(" ", lines[i]))
  }

  /** The lines whose first word begins with `deb`. */
  function DebLines(lines: seq<seq<string>>): seq<seq<string>> {
    if lines == [] then []
    else (if lines[0] != [] && StartsWith(lines[0][0], "deb") then [lines[0]] else []) + DebLines(lines[1..])
  }

  lemma {:induction false} WordsLine(words: seq<string>)
    requires words != [] && CleanAll(words)
    ensures var line := Join(" ", words);
      Solid(line) && line[..|words[0]|] <= line && words[0] <= line
      && (|words| > 1 ==> |line| > |words[0]| && line[|words[0]|] == ' ')
  {
    hide IsSpace;
    assert Clean(words[0]);
    JoinNoBreak(words);
    if |words| > 1 {
      WordsLine(words[1..]);
      assert Join(" ", words) == words[0] + " " + Join(" ", words[1..]);
    }
  }

  lemma WordsSource(words: seq<string>)
    requires words != [] && CleanAll(words)
    ensures Solid(Join(" ", words)) && Split(Join(" ", words)) == words
    ensures IsSource(Join(" ", words)) <==> StartsWith(words[0], "deb")
  {
    var line := Join(" ", words);
    WordsLine(words);
    SplitJoinedWords(words);
    StripSolid(line);
    hide Split, Join, Strip, Solid;
    if |words| > 1 || |words[0]| >= 3 {
      if |words[0]| < 3 && |line| >= 3 { assert line[..3][|words[0]|] == ' '; }
      if |words[0]| >= 3 { assert line[..3] == words[0][..3]; }
    } else {
      WordsOne(words);
    }
  }

  lemma WordsOne(words: seq<string>)
    requires |words| == 1
    ensures Join(" ", words) == words[0]
  {
  }

  /** Reading a list file of such lines gives the words of those that begin with `deb`, `deb-src` among them. */
  lemma WordsRead(lines: seq<seq<string>>)
    requires Words(lines)
    ensures ReadList(Content(Joined(lines))) == DebLines(lines)
  {
    forall l | l in Joined(lines) ensures Solid(l) {
      var i :| 0 <= i < |lines| && Joined(lines)[i] == l;
      WordsSource(lines[i]);
    }
    hide Solid;
    ReadContent(Joined(lines));
    WordsValid(lines);
  }

  lemma {:induction false} WordsValid(lines: seq<seq<string>>)
    requires Words(lines)
    ensures ValidSources(Joined(lines)) == DebLines(lines)
  {
    hide Split, IsSource, Join, CleanAll;
    if lines != [] {
      WordsSource(lines[0]);
      assert Joined(lines)[1..] == Joined(lines[1..]);
      WordsValid(lines[1..]);
    }
  }

  lemma {:induction false} DebLinesAre(lines: seq<seq<string>>)
    requires Words(lines)
    ensures forall s | s in DebLines(lines) :: s in lines
  {
    hide StartsWith;
    if lines != [] { DebLinesAre(lines[1..]); }
  }

  /** Converting any list file of such lines: the url is that of the first source, the suites are those of the sources
      that are of noble, each once; and there are source packages exactly if some source is of them. */
  lemma ConvertedFields(lines: seq<seq<string>>, order: seq<string>, keyringFile: string)
    requires Words(lines) && Clean(keyringFile) && forall s | s in DebLines(lines) :: |s| >= 3
    requires IsDistinct(order, Dists(DebLines(lines)))
    ensures var sources := DebLines(lines);
      var converted := Converted(Content(Joined(lines)), order, keyringFile);
      && (converted.None? <==> sources == [])
      && (converted.Some? ==>
            var stanza := SplitLines(converted.value);
            && FieldWords(stanza, "Types")
                 == Some(if exists s | s in sources :: s[0] == "deb-src" then ["deb", "deb-src"] else ["deb"])
            && FieldWords(stanza, "URIs") == Some([sources[0][1]])
            && FieldWords(stanza, "Suites") == Some(EnabledSuites(order, "noble", true))
            && FieldWords(stanza, "Components") == Some(["main"])
            && FieldWords(stanza, "Signed-By") == Some(["/usr/share/keyrings/" + keyringFile]))
  {
    var sources := DebLines(lines);
    WordsRead(lines);
    DebLinesAre(lines);
    if sources != [] {
      CleanOrder(lines, order);
      var url, includeDebSrc := sources[0][1], exists s | s in sources :: s[0] == "deb-src";
      assert sources[0] in lines;
      assert Clean(url);
      SomeDebSrc(sources);
      CleanBreaks(keyringFile);
      EnabledClean(order, "noble", true);
      hide *;
      ConvertedTo(Content(Joined(lines)), sources, order, keyringFile, includeDebSrc);
      StanzaFields(EnabledSuites(order, "noble", true), url, keyringFile, includeDebSrc);
      StanzaOrigin(EnabledSuites(order, "noble", true), url, keyringFile, includeDebSrc);
    }
  }

  lemma CleanBreaks(s: string)
    requires Clean(s)
    ensures NoBreak(s)
  {
  }

  lemma SomeDebSrc(sources: seq<seq<string>>)
    requires forall s | s in sources :: |s| >= 3
    ensures (exists i | 0 <= i < |sources| :: Word(sources[i], 0) == "deb-src")
      <==> exists s | s in sources :: s[0] == "deb-src"
  {
    if s :| s in sources && s[0] == "deb-src" {
      var i :| 0 <= i < |sources| && sources[i] == s;
      assert Word(sources[i], 0) == "deb-src";
    }
    if i :| 0 <= i < |sources| && Word(sources[i], 0) == "deb-src" { assert sources[i] in sources; }
  }

  lemma CleanOrder(lines: seq<seq<string>>, order: seq<string>)
    requires Words(lines) && (forall s | s in DebLines(lines) :: |s| >= 3 && s in lines)
    requires IsDistinct(order, Dists(DebLines(lines)))
    ensures CleanAll(order)
  {
    hide Clean, DebLines;
    forall k | 0 <= k < |order| ensures Clean(order[k]) {
      assert order[k] in Dists(DebLines(lines));
      var i :| 0 <= i < |DebLines(lines)| && Dists(DebLines(lines))[i] == order[k];
      var s := DebLines(lines)[i];
      assert s in DebLines(lines);
      var j :| 0 <= j < |lines| && lines[j] == s;
      assert Clean(s[2]);
    }
  }

  lemma ConvertedTo(list: string, sources: seq<seq<string>>, order: seq<string>, keyringFile: string,
                    includeDebSrc: bool)
    requires ReadList(list) == sources && sources != [] && |sources[0]| >= 3
    requires includeDebSrc <==> exists i | 0 <= i < |sources| :: Word(sources[i], 0) == "deb-src"
    ensures Converted(list, order, keyringFile)
      == Some(Content(SourcesLines(EnabledSuites(order, "noble", true), sources[0][1], keyringFile, includeDebSrc)))
  {
    hide ReadList, Content, SourcesLines, EnabledSuites;
  }
}
