/** The apt auth file: one `machine <repo> login <login> password <password>` line per repository. */
module AptAuth {
  import opened Json
  import opened Text

  const APT_AUTH_COMMENT := "  # ubuntu-pro-client"

  // ---------------------------------------------------------------------------------------------------------
  // Repositories and lines

  /** The first place of `part` in `s`, from `i` on. */
  function FindFrom(s: string, part: string, i: nat): (r: Option<nat>)
    requires i <= |s|
    ensures r.None? ==> forall j | i <= j <= |s| :: !At(s, j, part)
    ensures r.Some? ==> At(s, r.value, part) && forall j | i <= j < r.value :: !At(s, j, part)
    decreases |s| - i
  {
    if At(s, i, part) then Some(i)
    else if i == |s| then None
    else FindFrom(s, part, i + 1)
  }

  /** The url without its protocol; a url with more than one `://` cannot be unpacked. */
  function RepoPath(url: string): Result<string> {
    var i := FindFrom(url, "://", 0);
    if i.None? then Success(url)
    else if Contains(url[i.value + 3..], "://") then Failure(ValueError)
    else Success(url[i.value + 3..])
  }

  function WithSlash(path: string): string {
    if EndsWith(path, "/") then path else path + "/"
  }

  /** The repository of an auth line: its second word. */
  function Repo(line: string): Option<string> {
    if |Split(line)| >= 2 then Some(Split(line)[1]) else None
  }

  function AuthLine(repo: string, login: string, password: string): string {
    "machine " + repo + " login " + login + " password " + password + APT_AUTH_COMMENT
  }

  /** What marks a line of repository `repo` for removal. */
  function AuthPrefix(repo: string): string {
    "machine " + repo + " login"
  }

  // ---------------------------------------------------------------------------------------------------------
  // Editing the lines

  /** The repository of `line` is part of `repo`. */
  predicate LessSpecific(line: string, repo: string) {
    Repo(line).Some? && Contains(repo, Repo(line).value)
  }

  /** Replaces the line of the same repository, or inserts before the first less specific one, or appends. */
  function AddLine(lines: seq<string>, repo: string, line: string): seq<string> {
    if lines == [] then [line]
    else if Repo(lines[0]) == Some(repo) then [line] + lines[1..]
    else if LessSpecific(lines[0], repo) then [line] + lines
    else [lines[0]] + AddLine(lines[1..], repo, line)
  }

  function RemoveLines(lines: seq<string>, repo: string): seq<string> {
    if lines == [] then []
    else (if Contains(lines[0], AuthPrefix(repo)) then [] else [lines[0]]) + RemoveLines(lines[1..], repo)
  }

  /** The lines of a file that may be absent. */
  function Lines(file: Option<string>): seq<string> {
    if file.Some? then SplitLines(file.value) else []
  }

  function Written(lines: seq<string>): Option<string> {
    if Join("\n", lines) == "" then None else Some(Join("\n", lines))
  }

  function Added(file: Option<string>, repo: string, login: string, password: string): Option<string> {
    Some(Join("\n", AddLine(Lines(file), repo, AuthLine(repo, login, password)) + [""]))
  }

  function Removed(file: Option<string>, repo: string): Option<string> {
    if file.None? then None else Written(RemoveLines(Lines(file), repo))
  }

  /** A user name and a password around the only colon, or else a bearer token. */
  function Credentials(credentials: string): (string, string) {
    var i := FindFrom(credentials, ":", 0);
    if i.None? || Contains(credentials[i.value + 1..], ":") then ("bearer", credentials)
    else (credentials[..i.value], credentials[i.value + 1..])
  }

  /** The url without one slash at its end. */
  function Stripped(url: string): string {
    if EndsWith(url, "/") then url[..|url| - 1] else url
  }

  /** Urls are added in turn, until one that cannot be unpacked. */
  function AddUrls(file: Option<string>, urls: seq<string>, login: string, password: string): (Option<string>, bool)
    decreases |urls|
  {
    if urls == [] then (file, true)
    else if RepoPath(urls[0]).Failure? then (file, false)
    else AddUrls(Added(file, WithSlash(RepoPath(urls[0]).value), login, password), urls[1..], login, password)
  }

  function RemoveUrls(file: Option<string>, urls: seq<string>): (Option<string>, bool)
    decreases |urls|
  {
    if urls == [] then (file, true)
    else if RepoPath(urls[0]).Failure? then (file, false)
    else RemoveUrls(Removed(file, WithSlash(RepoPath(urls[0]).value)), urls[1..])
  }

  // ---------------------------------------------------------------------------------------------------------
  // The code

  lemma AddLineStep(todo: seq<string>, repo: string, line: string)
    requires todo != []
    ensures AddLine(todo, repo, line) ==
      if Repo(todo[0]) == Some(repo) then [line] + todo[1..]
      else if LessSpecific(todo[0], repo) then [line] + ([todo[0]] + todo[1..])
      else [todo[0]] + AddLine(todo[1..], repo, line)
  {
    assert todo == [todo[0]] + todo[1..];
  }

  lemma Shift(s: seq<string>, x: string, t: seq<string>)
    ensures s + ([x] + t) == s + [x] + t
  {
  }

  method EditLines(origLines: seq<string>, repoPath: string, repoAuthLine: string) returns (newLines: seq<string>)
    ensures newLines == AddLine(origLines, repoPath, repoAuthLine)
  {
    hide Repo, Contains;
    var addedNewAuth := false;
    newLines := [];
    var i := 0;
    ghost var goal := AddLine(origLines, repoPath, repoAuthLine);
    ghost var todo := origLines;
    while i < |origLines|
      invariant 0 <= i <= |origLines| && todo == origLines[i..]
      invariant goal == newLines + if addedNewAuth then todo else AddLine(todo, repoPath, repoAuthLine)
    {
      var line := origLines[i];
      AddLineStep(todo, repoPath, repoAuthLine);
      ghost var rest := todo[1..];
      todo := rest;
      i := i + 1;
      if !addedNewAuth {
        if Repo(line) == Some(repoPath) {
          Shift(newLines, repoAuthLine, rest);
          newLines := newLines + [repoAuthLine];
          addedNewAuth := true;
          continue;
        }
        if LessSpecific(line, repoPath) {
          Shift(newLines, repoAuthLine, [line] + rest);
          newLines := newLines + [repoAuthLine];
          addedNewAuth := true;
        }
      }
      Shift(newLines, line, if addedNewAuth then rest else AddLine(rest, repoPath, repoAuthLine));
      newLines := newLines + [line];
    }
    if !addedNewAuth { newLines := newLines + [repoAuthLine]; }
  }

  method KeepLines(lines: seq<string>, repo: string) returns (kept: seq<string>)
    ensures kept == RemoveLines(lines, repo)
  {
    var authPrefix := AuthPrefix(repo);
    kept := [];
    var i := 0;
    while i < |lines|
      invariant 0 <= i <= |lines|
      invariant kept + RemoveLines(lines[i..], repo) == RemoveLines(lines, repo)
    {
      assert lines[i..][1..] == lines[i + 1..];
      if !Contains(lines[i], authPrefix) { kept := kept + [lines[i]]; }
      i := i + 1;
    }
  }

  class AuthFile {
    var content: Option<string>

    constructor ()
      ensures content == None
    {
      content := None;
    }

    /** The result says whether the url could be unpacked. */
    method AddAptAuthConfEntry(repoUrl: string, login: string, password: string) returns (ok: bool)
      modifies this
      ensures ok <==> RepoPath(repoUrl).Success?
      ensures content ==
        if ok then Added(old(content), WithSlash(RepoPath(repoUrl).value), login, password) else old(content)
    {
      var path := RepoPath(repoUrl);
      if path.Failure? { return false; }
      var repoPath := path.value;
      if !EndsWith(repoPath, "/") { repoPath := repoPath + "/"; }
      var origLines := if content.Some? then SplitLines(content.value) else [];
      var newLines := EditLines(origLines, repoPath, AuthLine(repoPath, login, password));
      newLines := newLines + [""];
      content := Some(Join("\n", newLines));
      ok := true;
    }

    method RemoveRepoFromAptAuthFile(repoUrl: string) returns (ok: bool)
      modifies this
      ensures ok <==> RepoPath(repoUrl).Success?
      ensures content == if ok then Removed(old(content), WithSlash(RepoPath(repoUrl).value)) else old(content)
    {
      var path := RepoPath(repoUrl);
      if path.Failure? { return false; }
      var repoPath := path.value;
      if EndsWith(repoPath, "/") { repoPath := repoPath[..|repoPath| - 1]; }
      assert repoPath + "/" == WithSlash(path.value);
      if content.Some? {
        var kept := KeepLines(SplitLines(content.value), repoPath + "/");
        var text := Join("\n", kept);
        content := if text == "" then None else Some(text);
      }
      ok := true;
    }

    /** The loop of `add_auth_apt_repo`. */
    method AddAuthAptRepo(repoUrl: string, credentials: string, snapshotUrls: seq<string>) returns (ok: bool)
      modifies this
      ensures var (login, password) := Credentials(credentials);
        (content, ok) == AddUrls(old(content), [Stripped(repoUrl)] + snapshotUrls, login, password)
    {
      var (username, password) := Credentials(credentials);
      var urls := [Stripped(repoUrl)] + snapshotUrls;
      var i := 0;
      while i < |urls|
        invariant 0 <= i <= |urls|
        invariant AddUrls(content, urls[i..], username, password) == AddUrls(old(content), urls, username, password)
      {
        assert urls[i..][0] == urls[i] && urls[i..][1..] == urls[i + 1..];
        ok := AddAptAuthConfEntry(urls[i], username, password);
        if !ok { return; }
        i := i + 1;
      }
      ok := true;
    }

    /** The loop of `remove_auth_apt_repo`. */
    method RemoveAuthAptRepo(repoUrl: string, snapshotUrls: seq<string>) returns (ok: bool)
      modifies this
      ensures (content, ok) == RemoveUrls(old(content), [repoUrl] + snapshotUrls)
    {
      var urls := [repoUrl] + snapshotUrls;
      var i := 0;
      while i < |urls|
        invariant 0 <= i <= |urls|
        invariant RemoveUrls(content, urls[i..]) == RemoveUrls(old(content), urls)
      {
        assert urls[i..][0] == urls[i] && urls[i..][1..] == urls[i + 1..];
        ok := RemoveRepoFromAptAuthFile(urls[i]);
        if !ok { return; }
        i := i + 1;
      }
      ok := true;
    }
  }
}
