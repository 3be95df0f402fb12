/** Auth files that a removal does not restore. */
module AptAuthLimits {
  import opened Json
  import opened Text
  import opened AptAuth
  import opened AptAuthLaws
  import opened AptAuthRuns

  /** A url that ends in two slashes: the line that is added stays. */
  lemma TwoSlashesLeaveALine(login: string, password: string)
    requires NoSpace(login) && NoSpace(password)
    ensures var added := AddUrls(None, [Stripped("https://h//")], login, password).0;
      var removed := RemoveUrls(added, ["https://h//"]).0;
      Lines(removed) == [AuthLine("h/", login, password)]
  {
    hide *;
    SlashKeys();
    OneUrl("https://h/", "h/", None, login, password);
    OneUrl("https://h//", "h//", Added(None, "h/", login, password), login, password);
    ShortRepo();
    LinesAdded(None, "h/", login, password);
    LinesRemoved(Added(None, "h/", login, password), "h//");
    OneLineStays(login, password);
  }

  lemma SlashKeys()
    ensures Stripped("https://h//") == "https://h/"
    ensures RepoPath("https://h/") == Success("h/") && RepoPath("https://h//") == Success("h//")
    ensures EndsWith("h/", "/") && EndsWith("h//", "/")
  {
    EndsInSlash("h/");
    EndsInSlash("h//");
    EndsInSlash("https://h//");
    hide RepoPath, EndsWith, At;
    assert "https://h//"[..10] == "https://h/";
    OneSlash();
    TwoSlashes();
  }

  lemma OneSlash()
    ensures RepoPath("https://h/") == Success("h/")
  {
    assert At("https://h/", 5, "://");
    hide RepoPath, At;
    OneProtocol("https://h/", 5);
    assert "https://h/"[8..] == "h/";
  }

  lemma TwoSlashes()
    ensures RepoPath("https://h//") == Success("h//")
  {
    assert At("https://h//", 5, "://");
    hide RepoPath, At;
    OneProtocol("https://h//", 5);
    assert "https://h//"[8..] == "h//";
  }

  lemma ShortRepo()
    ensures CleanRepo("h/") && NoSpace("h/") && CleanRepo("h//")
  {
  }

  lemma OneProtocol(url: string, n: nat)
    requires At(url, n, "://") && forall i | 0 <= i < |url| && i != n :: url[i] != ':'
    ensures n + 3 <= |url| && RepoPath(url) == Success(url[n + 3..])
  {
    forall i | At(url, i, "://") ensures i < |url| && url[i] == ':' { AtColon(url, i); }
    var rest := url[n + 3..];
    forall i | At(rest, i, "://") ensures i < |rest| && rest[i] == ':' { AtColon(rest, i); }
    hide At;
    assert FindFrom(url, "://", 0) == Some(n);
    assert forall i | 0 <= i < |rest| :: rest[i] != ':';
    assert !Contains(rest, "://");
  }

  lemma AtColon(s: string, i: int)
    requires At(s, i, "://")
    ensures 0 <= i < |s| && s[i] == ':'
  {
    assert s[i] == s[i..i + 3][0];
  }

  lemma OneUrl(url: string, key: string, file: Option<string>, login: string, password: string)
    requires RepoPath(url) == Success(key) && EndsWith(key, "/")
    ensures AddUrls(file, [url], login, password) == (Added(file, key, login, password), true)
    ensures RemoveUrls(file, [url]) == (Removed(file, key), true)
  {
    hide RepoPath, Added, Removed;
    assert [url][1..] == [];
  }

  lemma OneLineStays(login: string, password: string)
    requires NoSpace(login) && NoSpace(password)
    ensures var line := AuthLine("h/", login, password);
      AddLine(Lines(None), "h/", line) == [line] && DropLastEmpty(RemoveLines([line], "h//")) == [line]
  {
    var line := AuthLine("h/", login, password);
    ShortRepo();
    RemovalIsExact("h/", login, password, "h//");
    AuthLineRepo("h/", login, password);
    hide AuthLine, Contains;
    assert [line][1..] == [];
    assert Repo("").None?;
  }

  /** A file that ends in an empty line: adding and removing a repository loses it. */
  lemma EmptyLineIsLost(repo: string, login: string, password: string)
    requires CleanRepo(repo) && NoSpace(login) && NoSpace(password)
    ensures var file := Some("#\n\n");
      Lines(file) == ["#", ""] && Lines(Removed(Added(file, repo, login, password), repo)) == ["#"]
  {
    var file, line := Some("#\n\n"), AuthLine(repo, login, password);
    assert Lines(file) == ["#", ""] by { HashLines(); }
    LinesAdded(file, repo, login, password);
    LinesRemoved(Added(file, repo, login, password), repo);
    RemovalIsExact(repo, login, password, repo);
    hide *;
    HashKept(repo, line);
  }

  /** A comment that holds the removal pattern of a repository: adding and removing the repository loses it, though
      it is no line of the repository. */
  lemma CommentIsLost(repo: string, login: string, password: string)
    requires CleanRepo(repo) && NoSpace(login) && NoSpace(password)
    ensures var comment := "# " + AuthPrefix(repo);
      var file := Some(comment + "\n");
      && Lines(file) == [comment] && Repo(comment) == Some("machine")
      && Lines(Removed(Added(file, repo, login, password), repo)) == []
  {
    var comment, line := "# " + AuthPrefix(repo), AuthLine(repo, login, password);
    var file := Some(comment + "\n");
    CommentLine(repo);
    LinesAdded(file, repo, login, password);
    LinesRemoved(Added(file, repo, login, password), repo);
    RemovalIsExact(repo, login, password, repo);
    hide *;
    CommentGoes(repo, comment, line);
  }

  lemma CommentLine(repo: string)
    requires CleanRepo(repo)
    ensures var comment := "# " + AuthPrefix(repo);
      && SplitLines(comment + "\n") == [comment] && Repo(comment) == Some("machine")
      && Contains(comment, AuthPrefix(repo))
  {
    var comment := "# " + AuthPrefix(repo);
    assert comment[2..2 + |AuthPrefix(repo)|] == AuthPrefix(repo);
    assert At(comment, 2, AuthPrefix(repo));
    forall i | 0 <= i < |comment| ensures !IsBreak(comment[i]) {
      if 10 <= i < 10 + |repo| { assert comment[i] == repo[i - 10] && !IsSpace(repo[i - 10]); }
    }
    assert comment + "\n" + "" == comment + "\n" && SplitLines("") == [];
    var rest := " " + repo + " login";
    assert comment == "#" + " " + "machine" + rest;
    hide SplitLines, Contains, AuthPrefix, At, Split;
    SplitFirstLine(comment, "");
    SecondWord("#", "machine", rest);
  }

  lemma CommentGoes(repo: string, comment: string, line: string)
    requires Contains(comment, AuthPrefix(repo)) && Contains(line, AuthPrefix(repo))
    ensures DropLastEmpty(RemoveLines(AddLine([comment], repo, line), repo)) == []
  {
    assert DropLastEmpty([]) == [];
    hide *;
    var added := AddLine([comment], repo, line);
    AddLineMembers([comment], repo, line);
    RemovedAreGone(added, repo);
    RemoveKeepsOrder(added, repo);
    assert forall l | l in added :: Contains(l, AuthPrefix(repo));
    SomeLine(RemoveLines(added, repo));
  }

  lemma SomeLine(lines: seq<string>)
    ensures lines != [] ==> exists l :: l in lines
  {
    if lines != [] { assert lines[0] in lines; }
  }

  lemma HashLines()
    ensures SplitLines("#\n\n") == ["#", ""]
  {
    assert "" + "\n" + "" == "\n" && "#" + "\n" + "\n" == "#\n\n";
    assert NoBreak("#") && NoBreak("") && SplitLines("") == [];
    hide SplitLines, NoBreak;
    SplitFirstLine("", "");
    assert SplitLines("\n") == [""];
    SplitFirstLine("#", "\n");
  }

  lemma HashKept(repo: string, line: string)
    requires Contains(line, AuthPrefix(repo))
    ensures DropLastEmpty(RemoveLines(AddLine(["#", ""], repo, line), repo)) == ["#"]
  {
    var lines := ["#", ""];
    assert lines[1..] == [""] && [""][1..] == [];
    assert Repo("#").None? && Repo("").None? by { SplitWord("#", ""); }
    assert |AuthPrefix(repo)| > 1;
    hide Repo, AuthPrefix;
    assert AddLine([], repo, line) == [line];
    assert AddLine([""], repo, line) == ["", line];
    assert AddLine(lines, repo, line) == ["#", "", line];
    assert ["#", "", line][1..] == ["", line] && ["", line][1..] == [line] && [line][1..] == [];
    assert !Contains("#", AuthPrefix(repo)) && !Contains("", AuthPrefix(repo));
    hide Contains;
    assert RemoveLines([line], repo) == [];
    assert RemoveLines(["", line], repo) == [""];
    assert RemoveLines(["#", "", line], repo) == ["#", ""];
  }
}
