/** Both formats name the same suites, and the conversion to deb822 keeps what the list file says. */
module SourcesLaws {
  import opened Json
  import opened Text
  import opened Sources

  const NOBLE := "noble"

  // ---------------------------------------------------------------------------------------------------------
  // Reading a list file

  function StripEnd(s: string): string {
    if s != "" && IsSpace(s[|s| - 1]) then StripEnd(s[..|s| - 1]) else s
  }

  /** `s.strip()`. */
  function Strip(s: string): string {
    StripEnd(SkipSpaces(s))
  }

  function NewlineAt(s: string): (n: nat)
    ensures n <= |s| && (n < |s| ==> s[n] == '\n') && forall i | 0 <= i < n :: s[i] != '\n'
  {
    if s == "" || s[0] == '\n' then 0 else 1 + NewlineAt(s[1..])
  }

  /** `s.split("\n")`. */
  function SplitNewlines(s: string): seq<string> {
    var n := NewlineAt(s);
    if n == |s| then [s] else [s[..n]] + SplitNewlines(s[n + 1..])
  }

  predicate IsSource(line: string) {
    StartsWith(Strip(line), "deb")
  }

  /** The words of every line that is not commented out. */
  function ValidSources(lines: seq<string>): seq<seq<string>> {
    if lines == [] then []
    else (if IsSource(lines[0]) then [Split(lines[0])] else []) + ValidSources(lines[1..])
  }

  function ReadList(content: string): seq<seq<string>> {
    ValidSources(SplitNewlines(Strip(content)))
  }

  function Word(words: seq<string>, i: nat): string {
    if i < |words| then words[i] else ""
  }

  /** The suite of each source: its third word. */
  function Dists(sources: seq<seq<string>>): seq<string> {
    seq(|sources|, i requires 0 <= i < |sources| => Word(sources[i], 2))
  }

  // ---------------------------------------------------------------------------------------------------------
  // Reading a deb822 file

  /** The words of a field of the stanza. */
  function FieldWords(lines: seq<string>, name: string): Option<seq<string>> {
    if lines == [] then None
    else if StartsWith(lines[0], name + ":") then Some(Split(lines[0][|name| + 1..]))
    else FieldWords(lines[1..], name)
  }

  // ---------------------------------------------------------------------------------------------------------
  // The conversion

  /** `order` lists the different names, each once. */
  ghost predicate IsDistinct(order: seq<string>, names: seq<string>) {
    && (forall n :: n in order <==> n in names)
    && forall i, j | 0 <= i < j < |order| :: order[i] != order[j]
  }

  /** `list(set(names))`: the different names, in any order. */
  method Distinct(names: seq<string>) returns (r: seq<string>)
    ensures IsDistinct(r, names)
  {
    r := [];
    var todo := set n | n in names;
    while todo != {}
      invariant forall n :: n in names <==> n in r || n in todo
      invariant forall n | n in r :: n !in todo
      invariant forall i, j | 0 <= i < j < |r| :: r[i] != r[j]
    {
      var n :| n in todo;
      r := r + [n];
      todo := todo - {n};
    }
  }

  /** What is written for a list file, given the order in which its suites come out of the set. */
  function Converted(list: string, order: seq<string>, keyringFile: string): Option<string> {
    var sources := ReadList(list);
    if sources == [] then None
    else Some(Content(SourcesLines(EnabledSuites(order, NOBLE, true), Word(sources[0], 1), keyringFile,
                                   exists i | 0 <= i < |sources| :: Word(sources[i], 0) == "deb-src")))
  }

  method ConvertListToDeb822(list: string, keyringFile: string) returns (content: Option<string>, order: seq<string>)
    ensures IsDistinct(order, Dists(ReadList(list)))
    ensures content == Converted(list, order, keyringFile)
  {
    var validSources := ReadList(list);
    order := Distinct(Dists(validSources));
    content := None;
    if validSources != [] {
      var repoUrl := Word(validSources[0], 1);
      var includeDebSrc := exists i | 0 <= i < |validSources| :: Word(validSources[i], 0) == "deb-src";
      var text := GetSourcesFileContent(order, NOBLE, true, repoUrl, keyringFile, includeDebSrc);
      content := Some(text);
    }
  }

  // ---------------------------------------------------------------------------------------------------------
  // A generated list file names the enabled suites

  predicate Clean(s: string) {
    s != "" && NoSpace(s)
  }

  predicate CleanAll(ss: seq<string>) {
    forall i | 0 <= i < |ss| :: Clean(ss[i])
  }

  predicate Solid(line: string) {
    line != "" && NoBreak(line) && !IsSpace(line[0]) && !IsSpace(line[|line| - 1])
  }

  lemma StripSolid(line: string)
    requires line != "" && !IsSpace(line[0]) && !IsSpace(line[|line| - 1])
    ensures Strip(line) == line
  {
  }

  lemma {:induction false} SplitNewline(line: string, rest: string)
    requires NoBreak(line)
    ensures SplitNewlines(line + "\n" + rest) == [line] + SplitNewlines(rest)
    ensures SplitNewlines(line) == [line]
  {
    var s := line + "\n" + rest;
    assert forall i | 0 <= i < |line| :: s[i] == line[i];
    var n := NewlineAt(s);
    assert s[|line|] == '\n';
    assert n == |line|;
    assert s[..n] == line && s[n + 1..] == rest;
  }

  lemma {:induction false} ContentJoin(lines: seq<string>)
    requires lines != []
    ensures Content(lines) == Join("\n", lines) + "\n"
  {
    if |lines| == 1 {
      assert lines[1..] == [];
    } else {
      ContentJoin(lines[1..]);
    }
  }

  lemma {:induction false} SplitJoined(lines: seq<string>)
    requires lines != [] && forall l | l in lines :: NoBreak(l)
    ensures SplitNewlines(Join("\n", lines)) == lines
  {
    hide SplitNewlines, NoBreak;
    if |lines| == 1 {
      SplitNewline(lines[0], "");
      assert Join("\n", lines) == lines[0];
    } else {
      SplitJoined(lines[1..]);
      SplitNewline(lines[0], Join("\n", lines[1..]));
      assert lines == [lines[0]] + lines[1..];
    }
  }

  lemma {:induction false} JoinSolid(lines: seq<string>)
    requires lines != [] && forall l | l in lines :: Solid(l)
    ensures var s := Join("\n", lines); s != "" && !IsSpace(s[0]) && !IsSpace(s[|s| - 1])
  {
    hide IsSpace, NoBreak;
    assert Solid(lines[0]);
    if |lines| > 1 { JoinSolid(lines[1..]); }
  }

  lemma StripNewline(s: string)
    requires s != "" && !IsSpace(s[0]) && !IsSpace(s[|s| - 1])
    ensures Strip(s + "\n") == s
  {
    var t := s + "\n";
    assert IsSpace('\n') && SkipSpaces(t) == t && t[..|t| - 1] == s;
    assert StripEnd(t) == StripEnd(s) == s;
  }

  /** Reading a text of solid lines reads the lines. */
  lemma ReadContent(lines: seq<string>)
    requires forall l | l in lines :: Solid(l)
    ensures ReadList(Content(lines)) == ValidSources(lines)
  {
    if lines == [] {
      assert SplitNewlines("") == [""] && !StartsWith(Strip(""), "deb");
      assert [""][1..] == [];
    } else {
      ContentJoin(lines);
      JoinSolid(lines);
      assert forall l | l in lines :: NoBreak(l) by { assert forall l | l in lines :: Solid(l); }
      StripNewline(Join("\n", lines));
      SplitJoined(lines);
    }
  }

  lemma SplitDeb(url: string, suite: string)
    requires Clean(url) && Clean(suite)
    ensures Split(DebLine(url, suite)) == ["deb", url, suite, "main"]
    ensures Solid(DebLine(url, suite)) && IsSource(DebLine(url, suite))
  {
    hide Split;
    var a, b, c := " " + url + " " + suite + " main", " " + suite + " main", " main";
    var line := DebLine(url, suite);
    assert "deb" + " " == "deb ";
    assert line == "deb" + a && a == " " + (url + b) && b == " " + (suite + c) && c == " " + ("main" + "");
    SplitWord("deb", a);
    SplitAfterSpace(url + b);
    SplitWord(url, b);
    SplitAfterSpace(suite + c);
    SplitWord(suite, c);
    SplitAfterSpace("main" + "");
    SplitWord("main", "");
    SplitNothing();
    DebLineSolid(url, suite);
    StripSolid(line);
    assert line[..3] == "deb";
  }

  lemma SplitAfterSpace(s: string)
    ensures Split(" " + s) == Split(s)
  {
    assert (" " + s)[1..] == s;
    SplitSpace(" " + s);
  }

  lemma SplitNothing()
    ensures Split("") == []
  {
  }

  lemma DebLineSolid(url: string, suite: string)
    requires Clean(url) && Clean(suite)
    ensures Solid(DebLine(url, suite)) && DebLine(url, suite)[0] == 'd'
  {
    var line := DebLine(url, suite);
    forall i | 0 <= i < |line| ensures !IsBreak(line[i]) {
      assert line[i] == if i < 4 then "deb "[i] else if i < 4 + |url| then url[i - 4]
        else if i < 5 + |url| then ' ' else if i < 5 + |url| + |suite| then suite[i - 5 - |url|]
        else " main"[i - 5 - |url| - |suite|];
    }
  }

  lemma NotASource(line: string)
    requires Solid(line) && line[0] != 'd'
    ensures !IsSource(line)
  {
    StripSolid(line);
    assert |line| >= 3 ==> line[0..3][0] == line[0];
  }

  lemma CommentSolid(line: string)
    requires Solid(line)
    ensures Solid("# " + line) && !IsSource("# " + line)
  {
    NotASource("# " + line);
  }

  lemma DebSrcSolid(url: string, suite: string)
    requires Clean(url) && Clean(suite)
    ensures Solid(DebSrcLine(url, suite)) && !IsSource(DebSrcLine(url, suite))
  {
    var line := DebSrcLine(url, suite);
    forall i | 0 <= i < |line| ensures !IsBreak(line[i]) {
      assert line[i] == if i < 10 then "# deb-src "[i] else if i < 10 + |url| then url[i - 10]
        else if i < 11 + |url| then ' ' else if i < 11 + |url| + |suite| then suite[i - 11 - |url|]
        else " main"[i - 11 - |url| - |suite|];
    }
    NotASource(line);
  }

  function DebWords(url: string, suites: seq<string>): seq<seq<string>> {
    seq(|suites|, i requires 0 <= i < |suites| => ["deb", url, suites[i], "main"])
  }

  lemma SuiteLinesRead(suite: string, series: string, updatesEnabled: bool, url: string)
    requires Clean(url) && Clean(suite)
    ensures var lines := SuiteLines(suite, series, updatesEnabled, url);
      && (forall l | l in lines :: Solid(l))
      && ValidSources(lines) == if Enabled(suite, series, updatesEnabled) then [["deb", url, suite, "main"]] else []
  {
    hide Contains, IsSource, Solid, Clean, DebLine, DebSrcLine, Split;
    SplitDeb(url, suite);
    CommentSolid(DebLine(url, suite));
    DebSrcSolid(url, suite);
    var lines := SuiteLines(suite, series, updatesEnabled, url);
    if lines != [] {
      assert "" + DebLine(url, suite) == DebLine(url, suite);
      assert lines[1..][1..] == [];
      assert ValidSources(lines[1..]) == [];
    }
  }

  lemma {:induction false} ValidSourcesConcat(s: seq<string>, t: seq<string>)
    ensures ValidSources(s + t) == ValidSources(s) + ValidSources(t)
  {
    hide IsSource, Split;
    if s == [] {
      assert s + t == t;
    } else {
      assert (s + t)[1..] == s[1..] + t;
      ValidSourcesConcat(s[1..], t);
    }
  }

  lemma {:induction false} ListLinesSolid(suites: seq<string>, series: string, updatesEnabled: bool, url: string)
    requires Clean(url) && CleanAll(suites)
    ensures var lines := ListLines(suites, series, updatesEnabled, url);
      forall l | l in lines :: Solid(l)
  {
    hide Enabled, Solid, Clean, SuiteLines;
    if suites != [] {
      var first := SuiteLines(suites[0], series, updatesEnabled, url);
      var rest := ListLines(suites[1..], series, updatesEnabled, url);
      ListLinesSolid(suites[1..], series, updatesEnabled, url);
      SuiteLinesRead(suites[0], series, updatesEnabled, url);
      assert ListLines(suites, series, updatesEnabled, url) == first + rest;
    }
  }

  lemma {:induction false} ListLinesRead(suites: seq<string>, series: string, updatesEnabled: bool, url: string)
    requires Clean(url) && CleanAll(suites)
    ensures ValidSources(ListLines(suites, series, updatesEnabled, url))
      == DebWords(url, EnabledSuites(suites, series, updatesEnabled))
  {
    hide Enabled, IsSource, Solid, Clean, Split, SuiteLines;
    if suites == [] {
      assert EnabledSuites(suites, series, updatesEnabled) == [];
    } else {
      var first := SuiteLines(suites[0], series, updatesEnabled, url);
      var rest := ListLines(suites[1..], series, updatesEnabled, url);
      ListLinesRead(suites[1..], series, updatesEnabled, url);
      SuiteLinesRead(suites[0], series, updatesEnabled, url);
      ValidSourcesConcat(first, rest);
      hide ValidSources;
      var head := if Enabled(suites[0], series, updatesEnabled) then [suites[0]] else [];
      DebWordsConcat(url, head, EnabledSuites(suites[1..], series, updatesEnabled));
      assert DebWords(url, head) == if head == [] then [] else [["deb", url, suites[0], "main"]];
    }
  }

  lemma DebWordsConcat(url: string, s: seq<string>, t: seq<string>)
    ensures DebWords(url, s + t) == DebWords(url, s) + DebWords(url, t)
  {
  }

  /** The lines of a generated list file that are not commented out name the enabled suites, in order. */
  lemma ListNamesSuites(suites: seq<string>, series: string, updatesEnabled: bool, url: string)
    requires Clean(url) && CleanAll(suites)
    ensures ReadList(Content(ListLines(suites, series, updatesEnabled, url)))
      == DebWords(url, EnabledSuites(suites, series, updatesEnabled))
  {
    ListLinesSolid(suites, series, updatesEnabled, url);
    ListLinesRead(suites, series, updatesEnabled, url);
    ReadContent(ListLines(suites, series, updatesEnabled, url));
  }

  // ---------------------------------------------------------------------------------------------------------
  // So does a generated deb822 stanza

  lemma {:induction false} SplitJoinedWords(words: seq<string>)
    requires CleanAll(words)
    ensures Split(Join(" ", words)) == words
  {
    hide Split, IsSpace;
    if words == [] {
      SplitNothing();
    } else if |words| == 1 {
      SplitLastWord(words[0]);
    } else {
      var rest := Join(" ", words[1..]);
      SplitJoinedWords(words[1..]);
      SplitFirstWord(words[0], rest);
      assert Join(" ", words) == words[0] + " " + rest;
      assert words == [words[0]] + words[1..];
    }
  }

  lemma SplitLastWord(word: string)
    requires Clean(word)
    ensures Split(word) == [word]
  {
    assert word + "" == word;
    SplitWord(word, "");
  }

  lemma SplitFirstWord(word: string, rest: string)
    requires Clean(word)
    ensures Split(word + " " + rest) == [word] + Split(rest)
  {
    assert word + " " + rest == word + (" " + rest);
    SplitWord(word, " " + rest);
    SplitAfterSpace(rest);
  }

  lemma {:induction false} JoinNoBreak(words: seq<string>)
    requires CleanAll(words)
    ensures NoBreak(Join(" ", words))
  {
    if |words| > 1 { JoinNoBreak(words[1..]); }
  }

  ghost predicate CleanStanza(suites: seq<string>, url: string, keyringFile: string) {
    CleanAll(suites) && Clean(url) && NoBreak(keyringFile)
  }

  lemma ConcatNoBreak(s: string, t: string)
    requires NoBreak(s) && NoBreak(t)
    ensures NoBreak(s + t)
  {
  }

  lemma StanzaNoBreak(suites: seq<string>, url: string, keyringFile: string, includeDebSrc: bool)
    requires CleanStanza(suites, url, keyringFile)
    ensures forall l | l in SourcesLines(suites, url, keyringFile, includeDebSrc) :: NoBreak(l)
  {
    JoinNoBreak(suites);
    ConstantsNoBreak();
    NamesNoBreak();
    hide NoBreak, Join, WRITTEN_BY, COMPONENTS, SIGNED_BY;
    ConcatNoBreak("URIs: ", url);
    ConcatNoBreak("Suites: ", Join(" ", suites));
    ConcatNoBreak("Types: deb", if includeDebSrc then " deb-src" else "");
    ConcatNoBreak(SIGNED_BY, keyringFile);
  }

  lemma ConstantsNoBreak()
    ensures NoBreak(WRITTEN_BY) && NoBreak(COMPONENTS) && NoBreak(SIGNED_BY)
  {
  }

  lemma NamesNoBreak()
    ensures NoBreak("URIs: ") && NoBreak("Suites: ") && NoBreak("Types: deb") && NoBreak(" deb-src") && NoBreak("")
  {
  }

  lemma FieldLine(name: string, value: string)
    ensures StartsWith(name + ": " + value, name + ":")
    ensures (name + ": " + value)[|name + ":"|..] == " " + value
  {
    assert name + ": " + value == (name + ":") + (" " + value);
  }

  lemma OtherField(line: string, name: string)
    requires line != "" && name != "" && line[0] != name[0]
    ensures !StartsWith(line, name + ":")
  {
    if |name + ":"| <= |line| { assert line[0..|name + ":"|][0] == line[0]; }
  }

  /** The stanza has the given types, url and suites, and its suites are in the order given. */
  lemma StanzaFields(suites: seq<string>, url: string, keyringFile: string, includeDebSrc: bool)
    requires CleanStanza(suites, url, keyringFile)
    ensures var lines := SplitLines(Content(SourcesLines(suites, url, keyringFile, includeDebSrc)));
      && FieldWords(lines, "Types") == Some(if includeDebSrc then ["deb", "deb-src"] else ["deb"])
      && FieldWords(lines, "URIs") == Some([url])
      && FieldWords(lines, "Suites") == Some(suites)
  {
    var lines := SourcesLines(suites, url, keyringFile, includeDebSrc);
    StanzaNoBreak(suites, url, keyringFile, includeDebSrc);
    ContentLines(lines);
    TypesField(lines, includeDebSrc);
    UrisField(lines, url);
    SuitesField(lines, suites);
  }

  lemma FieldFound(lines: seq<string>, n: nat, name: string, value: string)
    requires n < |lines| && lines[n] == name + ": " + value && name != ""
    requires forall i | 0 <= i < n :: lines[i] != "" && lines[i][0] != name[0]
    ensures FieldWords(lines, name) == Some(Split(value))
    decreases n
  {
    if n == 0 {
      FieldLine(name, value);
      SplitAfterSpace(value);
    } else {
      OtherField(lines[0], name);
      FieldFound(lines[1..], n - 1, name, value);
    }
  }

  lemma SplitTypes(includeDebSrc: bool)
    ensures Split("deb" + if includeDebSrc then " deb-src" else "")
      == if includeDebSrc then ["deb", "deb-src"] else ["deb"]
  {
    hide Split;
    if includeDebSrc {
      assert "deb" + " deb-src" == "deb" + " " + "deb-src";
      SplitFirstWord("deb", "deb-src");
      SplitLastWord("deb-src");
    } else {
      assert "deb" + "" == "deb";
      SplitLastWord("deb");
    }
  }

  lemma TypesField(lines: seq<string>, includeDebSrc: bool)
    requires |lines| == 6 && lines[0] != "" && lines[0][0] == '#'
    requires lines[1] == "Types: deb" + if includeDebSrc then " deb-src" else ""
    ensures FieldWords(lines, "Types") == Some(if includeDebSrc then ["deb", "deb-src"] else ["deb"])
  {
    var value := "deb" + if includeDebSrc then " deb-src" else "";
    assert "Types: deb" == "Types" + ": " + "deb";
    assert lines[1] == "Types" + ": " + value;
    FieldFound(lines, 1, "Types", value);
    SplitTypes(includeDebSrc);
  }

  lemma UrisField(lines: seq<string>, url: string)
    requires |lines| == 6 && Clean(url)
    requires lines[0] != "" && lines[0][0] == '#' && lines[1] != "" && lines[1][0] == 'T'
    requires lines[2] == "URIs: " + url
    ensures FieldWords(lines, "URIs") == Some([url])
  {
    assert lines[2] == "URIs" + ": " + url;
    FieldFound(lines, 2, "URIs", url);
    SplitLastWord(url);
  }

  lemma SuitesField(lines: seq<string>, suites: seq<string>)
    requires |lines| == 6 && CleanAll(suites)
    requires lines[0] != "" && lines[0][0] == '#' && lines[1] != "" && lines[1][0] == 'T'
    requires lines[2] != "" && lines[2][0] == 'U' && lines[3] == "Suites: " + Join(" ", suites)
    ensures FieldWords(lines, "Suites") == Some(suites)
  {
    assert lines[3] == "Suites" + ": " + Join(" ", suites);
    FieldFound(lines, 3, "Suites", Join(" ", suites));
    SplitJoinedWords(suites);
  }

  // ---------------------------------------------------------------------------------------------------------
  // Main results

  lemma EnabledClean(suites: seq<string>, series: string, updatesEnabled: bool)
    requires CleanAll(suites)
    ensures CleanAll(EnabledSuites(suites, series, updatesEnabled))
    ensures forall s :: s in EnabledSuites(suites, series, updatesEnabled) <==>
      s in suites && Enabled(s, series, updatesEnabled)
  {
    hide Clean, Enabled;
    if suites != [] { EnabledClean(suites[1..], series, updatesEnabled); }
  }

  /** The two formats name the same suites in the same order. */
  lemma FormatsAgree(suites: seq<string>, series: string, updatesEnabled: bool, url: string, keyringFile: string)
    requires Clean(url) && CleanAll(suites) && NoBreak(keyringFile)
    ensures var list := Content(ListLines(suites, series, updatesEnabled, url));
      var stanza := Content(SourcesLines(EnabledSuites(suites, series, updatesEnabled), url, keyringFile, false));
      FieldWords(SplitLines(stanza), "Suites") == Some(Dists(ReadList(list)))
  {
    var enabled := EnabledSuites(suites, series, updatesEnabled);
    EnabledClean(suites, series, updatesEnabled);
    ListNamesSuites(suites, series, updatesEnabled, url);
    StanzaFields(enabled, url, keyringFile, false);
    assert Dists(DebWords(url, enabled)) == enabled;
  }

  lemma ConvertedIs(list: string, url: string, enabled: seq<string>, order: seq<string>, keyringFile: string)
    requires ReadList(list) == DebWords(url, enabled) && EnabledSuites(order, NOBLE, true) == order
    ensures Converted(list, order, keyringFile)
      == if enabled == [] then None else Some(Content(SourcesLines(order, url, keyringFile, false)))
  {
    hide ReadList, Content, SourcesLines, EnabledSuites;
    var sources := ReadList(list);
    if enabled != [] {
      assert Word(sources[0], 1) == url;
      assert forall i | 0 <= i < |sources| :: Word(sources[i], 0) == "deb";
      assert "deb" != "deb-src";
    }
  }

  lemma OrderEnabled(suites: seq<string>, updatesEnabled: bool, order: seq<string>)
    requires CleanAll(suites) && IsDistinct(order, EnabledSuites(suites, NOBLE, updatesEnabled))
    ensures CleanAll(order) && EnabledSuites(order, NOBLE, true) == order
  {
    EnabledClean(suites, NOBLE, updatesEnabled);
    forall i | 0 <= i < |order| ensures Clean(order[i]) && Enabled(order[i], NOBLE, true) {
      assert order[i] in order;
      assert order[i] in EnabledSuites(suites, NOBLE, updatesEnabled);
      assert Enabled(order[i], NOBLE, updatesEnabled);
    }
    AllEnabled(order);
  }

  /** Converting a generated list file with an enabled suite keeps its url and its suites, each once, and asks for no
      source packages, whatever order the suites come out of the set in; one with none is not converted. */
  lemma ConversionKeepsSources(suites: seq<string>, updatesEnabled: bool, url: string, keyringFile: string,
                               order: seq<string>)
    requires Clean(url) && CleanAll(suites) && NoBreak(keyringFile)
    requires IsDistinct(order, EnabledSuites(suites, NOBLE, updatesEnabled))
    ensures var list := Content(ListLines(suites, NOBLE, updatesEnabled, url));
      var converted := Converted(list, order, keyringFile);
      && Dists(ReadList(list)) == EnabledSuites(suites, NOBLE, updatesEnabled)
      && (converted.None? <==> EnabledSuites(suites, NOBLE, updatesEnabled) == [])
      && (converted.Some? ==>
           && FieldWords(SplitLines(converted.value), "Types") == Some(["deb"])
           && FieldWords(SplitLines(converted.value), "URIs") == Some([url])
           && FieldWords(SplitLines(converted.value), "Suites") == Some(order))
  {
    var enabled := EnabledSuites(suites, NOBLE, updatesEnabled);
    var list := Content(ListLines(suites, NOBLE, updatesEnabled, url));
    ListNamesSuites(suites, NOBLE, updatesEnabled, url);
    assert Dists(DebWords(url, enabled)) == enabled;
    OrderEnabled(suites, updatesEnabled, order);
    hide EnabledSuites, ReadList, ListLines, Content, SourcesLines, FieldWords, SplitLines, Converted, IsDistinct;
    ConvertedIs(list, url, enabled, order, keyringFile);
    StanzaFields(order, url, keyringFile, false);
  }

  lemma {:induction false} AllEnabled(order: seq<string>)
    requires forall i | 0 <= i < |order| :: Enabled(order[i], NOBLE, true)
    ensures EnabledSuites(order, NOBLE, true) == order
  {
    hide Enabled;
    if order != [] { AllEnabled(order[1..]); }
  }
}
