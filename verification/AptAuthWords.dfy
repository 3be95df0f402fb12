/** What the auth file says in words: credentials, urls, lines and the place of a new line. */
module AptAuthWords {
  import opened Json
  import opened Text
  import opened AptAuth
  import opened AptAuthLaws

  predicate NoColon(s: string) {
    forall i | 0 <= i < |s| :: s[i] != ':'
  }

  // ---------------------------------------------------------------------------------------------------------
  // Credentials

  lemma ColonAt(s: string, i: int)
    ensures Text.At(s, i, ":") <==> 0 <= i < |s| && s[i] == ':'
  {
    if 0 <= i < |s| { assert s[i..i + 1] == [s[i]]; }
  }

  lemma ColonIn(s: string)
    ensures Contains(s, ":") <==> !NoColon(s)
  {
    forall i ensures Text.At(s, i, ":") <==> 0 <= i < |s| && s[i] == ':' { ColonAt(s, i); }
  }

  /** One colon separates a user name from a password. */
  lemma UserAndPassword(user: string, password: string)
    requires NoColon(user) && NoColon(password)
    ensures Credentials(user + ":" + password) == (user, password)
  {
    var s := user + ":" + password;
    assert s[|user|] == ':' && s[..|user|] == user && s[|user| + 1..] == password;
    assert forall i | 0 <= i < |user| :: s[i] == user[i];
    forall i ensures Text.At(s, i, ":") <==> 0 <= i < |s| && s[i] == ':' { ColonAt(s, i); }
    ColonIn(password);
    hide Text.At;
    assert FindFrom(s, ":", 0) == Some(|user|);
  }

  /** Anything without a colon, or with more than one, is a bearer token. */
  lemma BearerToken(token: string)
    requires NoColon(token) || exists i, j | 0 <= i < j < |token| :: token[i] == token[j] == ':'
    ensures Credentials(token) == ("bearer", token)
  {
    forall i ensures Text.At(token, i, ":") <==> 0 <= i < |token| && token[i] == ':' { ColonAt(token, i); }
    var first := FindFrom(token, ":", 0);
    if first.Some? {
      var i, j :| 0 <= i < j < |token| && token[i] == token[j] == ':';
      var rest := token[first.value + 1..];
      assert rest[j - first.value - 1] == ':';
      ColonIn(rest);
    }
  }

  // ---------------------------------------------------------------------------------------------------------
  // Urls

  /** A protocol is cut off. */
  lemma ProtocolIsCut(protocol: string, path: string)
    requires NoColon(protocol)
    ensures RepoPath(protocol + "://" + path) == if Contains(path, "://") then Failure(ValueError) else Success(path)
  {
    var url, n := protocol + "://" + path, |protocol|;
    assert url[n..n + 3] == "://" && url[n + 3..] == path;
    assert Text.At(url, n, "://");
    forall i | 0 <= i < n ensures !Text.At(url, i, "://") {
      assert url[i] == protocol[i];
      ProtocolBegins(url, i);
    }
    hide Text.At;
    assert FindFrom(url, "://", 0) == Some(n);
  }

  lemma ProtocolBegins(s: string, i: int)
    ensures Text.At(s, i, "://") ==> 0 <= i < |s| && s[i] == ':'
  {
    if Text.At(s, i, "://") { assert s[i] == s[i..i + 3][0]; }
  }

  lemma NoProtocolToCut(url: string)
    requires !Contains(url, "://")
    ensures RepoPath(url) == Success(url)
  {
  }

  // ---------------------------------------------------------------------------------------------------------
  // Lines

  /** The words of an auth line are those of netrc, and a comment. */
  lemma AuthLineWords(repo: string, login: string, password: string)
    requires repo != "" && NoSpace(repo) && login != "" && NoSpace(login) && password != "" && NoSpace(password)
    ensures Split(AuthLine(repo, login, password))
         == ["machine", repo, "login", login, "password", password, "#", "ubuntu-pro-client"]
  {
    hide Split;
    var g := "";
    var f := "ubuntu-pro-client" + g;
    var e := "#" + " " + f;
    var d := password + " " + (" " + e);
    var c := "password" + " " + d;
    var b := login + " " + c;
    var a := "login" + " " + b;
    LineInWords(repo, login, password);
    assert AuthLine(repo, login, password) == "machine" + " " + (repo + " " + a);
    NextWord("machine", repo + " " + a);
    NextWord(repo, a);
    NextWord("login", b);
    NextWord(login, c);
    NextWord("password", d);
    NextWord(password, " " + e);
    SkipSpace(e);
    NextWord("#", f);
    SplitWord("ubuntu-pro-client", g);
    SplitEmpty();
  }

  lemma LineInWords(repo: string, login: string, password: string)
    ensures AuthLine(repo, login, password)
      == "machine" + " " + (repo + " " + ("login" + " " + (login + " " + ("password" + " "
           + (password + " " + (" " + ("#" + " " + ("ubuntu-pro-client" + ""))))))))
  {
    assert APT_AUTH_COMMENT == " " + (" " + ("#" + " " + ("ubuntu-pro-client" + "")));
    assert " login " == " " + ("login" + " ") && " password " == " " + ("password" + " ");
    assert "machine " == "machine" + " ";
  }

  lemma NextWord(word: string, rest: string)
    requires word != "" && NoSpace(word)
    ensures Split(word + " " + rest) == [word] + Split(rest)
  {
    assert word + " " + rest == word + (" " + rest);
    SplitWord(word, " " + rest);
    SkipSpace(rest);
  }

  lemma SkipSpace(s: string)
    ensures Split(" " + s) == Split(s)
  {
    assert (" " + s)[1..] == s;
    SplitSpace(" " + s);
  }

  lemma SplitEmpty()
    ensures Split("") == []
  {
  }

  // ---------------------------------------------------------------------------------------------------------
  // Files and urls

  /** A removal deletes the file exactly if it leaves no line, or nothing but an empty one. */
  lemma EmptyFileIsDeleted(file: Option<string>, repo: string)
    requires file.Some?
    ensures Removed(file, repo) == None <==> RemoveLines(Lines(file), repo) in {[], [""]}
  {
    hide RemoveLines, Lines;
    var kept := RemoveLines(Lines(file), repo);
    if |kept| == 1 {
      assert Join("\n", kept) == kept[0] && kept == [kept[0]];
    } else if kept != [] {
      assert Join("\n", kept) == kept[0] + "\n" + Join("\n", kept[1..]);
      assert Join("\n", kept)[|kept[0]|] == '\n';
    }
  }

  /** The first url that cannot be unpacked ends the loop; what was done for those before it stays. */
  lemma {:induction false} LoopsStopAt(file: Option<string>, urls: seq<string>, n: nat, login: string,
                                       password: string)
    requires n < |urls| && RepoPath(urls[n]).Failure? && forall i | 0 <= i < n :: RepoPath(urls[i]).Success?
    ensures AddUrls(file, urls, login, password) == (AddUrls(file, urls[..n], login, password).0, false)
    ensures RemoveUrls(file, urls) == (RemoveUrls(file, urls[..n]).0, false)
    ensures AddUrls(file, urls[..n], login, password).1 && RemoveUrls(file, urls[..n]).1
    decreases n
  {
    hide RepoPath, WithSlash, Added, Removed;
    if n > 0 {
      assert urls[..n][1..] == urls[1..][..n - 1];
      var repo := WithSlash(RepoPath(urls[0]).value);
      LoopsStopAt(Added(file, repo, login, password), urls[1..], n - 1, login, password);
      LoopsStopAt(Removed(file, repo), urls[1..], n - 1, login, password);
    }
  }

  // ---------------------------------------------------------------------------------------------------------
  // The place of a new line

  /** The second word of the line is part of the repository, or is the repository. */
  predicate Matters(line: string, repo: string) {
    |Split(line)| >= 2 && Contains(repo, Split(line)[1])
  }

  /** The new line stands where the first line stood that matters: in its place if it is of the same repository, and
      else before it; it is the last one if none matters. */
  lemma {:induction false} NewLinePlace(lines: seq<string>, repo: string, line: string, n: nat)
    requires n <= |lines| && (forall i | 0 <= i < n :: !Matters(lines[i], repo))
    requires n < |lines| ==> Matters(lines[n], repo)
    ensures AddLine(lines, repo, line) == lines[..n] + [line]
      + if n < |lines| && Split(lines[n])[1] == repo then lines[n + 1..] else lines[n..]
  {
    hide Split, Contains;
    if lines != [] {
      if n == 0 {
        assert lines[..0] + [line] == [line];
      } else {
        ContainsSelf(repo);
        NewLinePlace(lines[1..], repo, line, n - 1);
        assert lines[..n] == [lines[0]] + lines[1..][..n - 1];
      }
    }
  }
}
