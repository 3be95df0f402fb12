/** The order that the auth file keeps, and what a series of edits does to it. */
module AptAuthLaws {
  import opened Json
  import opened Text
  import opened AptAuth

  // ---------------------------------------------------------------------------------------------------------
  // The order

  /** The repository of `earlier` is part of that of `later`, so it would hide it. */
  predicate Hides(earlier: string, later: string) {
    Repo(earlier).Some? && Repo(later).Some? && Contains(Repo(later).value, Repo(earlier).value)
  }

  predicate Ordered(lines: seq<string>) {
    forall i, j | 0 <= i < j < |lines| :: !Hides(lines[i], lines[j])
  }

  lemma {:induction false} AddLineMembers(lines: seq<string>, repo: string, line: string)
    ensures line in AddLine(lines, repo, line)
    ensures forall l | l in AddLine(lines, repo, line) :: l == line || l in lines
  {
    hide Repo, Contains;
    if lines != [] { AddLineMembers(lines[1..], repo, line); }
  }

  /** Inserting before the first less specific line puts the new line after every more specific one. */
  lemma {:induction false} AddKeepsOrder(lines: seq<string>, repo: string, line: string)
    requires Ordered(lines) && Repo(line) == Some(repo)
    ensures Ordered(AddLine(lines, repo, line))
  {
    hide Repo, Contains;
    if lines != [] {
      var first := Repo(lines[0]);
      if first == Some(repo) {
      } else if first.Some? && Contains(repo, first.value) {
        forall j | 0 <= j < |lines| ensures !Hides(line, lines[j]) {
          if Hides(line, lines[j]) {
            ContainsTrans(Repo(lines[j]).value, repo, first.value);
            if j == 0 { ContainsAntisymmetric(repo, first.value); }
          }
        }
      } else {
        AddLineMembers(lines[1..], repo, line);
        AddKeepsOrder(lines[1..], repo, line);
        forall l | l in AddLine(lines[1..], repo, line) ensures !Hides(lines[0], l) {
          if l != line {
            var j :| 0 <= j < |lines[1..]| && lines[1..][j] == l;
            assert l == lines[j + 1];
          }
        }
      }
    }
  }

  lemma {:induction false} RemoveKeepsOrder(lines: seq<string>, repo: string)
    ensures forall l | l in RemoveLines(lines, repo) :: l in lines
    ensures Ordered(lines) ==> Ordered(RemoveLines(lines, repo))
  {
    hide Repo, Contains;
    if lines != [] {
      RemoveKeepsOrder(lines[1..], repo);
      if Ordered(lines) {
        forall l | l in RemoveLines(lines[1..], repo) ensures !Hides(lines[0], l) {
          var j :| 0 <= j < |lines[1..]| && lines[1..][j] == l;
          assert l == lines[j + 1];
        }
      }
    }
  }

  /** In an ordered file two lines of one repository are the same line. */
  lemma OrderedUnique(lines: seq<string>, i: nat, j: nat)
    requires Ordered(lines) && i < |lines| && j < |lines|
    requires Repo(lines[i]).Some? && Repo(lines[i]) == Repo(lines[j])
    ensures i == j
  {
    ContainsSelf(Repo(lines[i]).value);
    if i < j { assert Hides(lines[i], lines[j]); }
    if j < i { assert Hides(lines[j], lines[i]); }
  }

  // ---------------------------------------------------------------------------------------------------------
  // Lookup: apt takes the first line whose repository begins the path

  predicate Serves(line: string, path: string) {
    Repo(line).Some? && StartsWith(path, Repo(line).value)
  }

  function FirstMatch(lines: seq<string>, path: string): Option<nat> {
    if lines == [] then None
    else if Serves(lines[0], path) then Some(0)
    else
      var rest := FirstMatch(lines[1..], path);
      if rest.Some? then Some(rest.value + 1) else None
  }

  lemma {:induction false} FirstMatchIs(lines: seq<string>, path: string)
    ensures var m := FirstMatch(lines, path);
      && (m.None? ==> forall i | 0 <= i < |lines| :: !Serves(lines[i], path))
      && (m.Some? ==>
           && m.value < |lines| && Serves(lines[m.value], path)
           && forall i | 0 <= i < m.value :: !Serves(lines[i], path))
  {
    hide Repo, Contains;
    if lines != [] {
      FirstMatchIs(lines[1..], path);
      if FirstMatch(lines, path).None? {
        forall i | 0 <= i < |lines| ensures !Serves(lines[i], path) {
          if i > 0 { assert lines[i] == lines[1..][i - 1]; }
        }
      } else {
        forall i | 0 < i < FirstMatch(lines, path).value ensures !Serves(lines[i], path) {
          assert lines[i] == lines[1..][i - 1];
        }
      }
    }
  }

  lemma PrefixesNest(path: string, a: string, b: string)
    requires StartsWith(path, a) && StartsWith(path, b)
    ensures |a| <= |b| ==> Contains(b, a)
  {
    if |a| <= |b| {
      assert path[..|b|][..|a|] == path[..|a|];
      assert At(b, 0, a);
    }
  }

  /** The first match is the longest match: every other line that serves the path names a shorter repository. */
  lemma FirstMatchIsLongest(lines: seq<string>, path: string, i: nat)
    requires Ordered(lines) && i < |lines| && Serves(lines[i], path)
    ensures FirstMatch(lines, path).Some? && FirstMatch(lines, path).value <= i
    ensures var m := FirstMatch(lines, path).value;
      Serves(lines[m], path) && (m != i ==> |Repo(lines[i]).value| < |Repo(lines[m]).value|)
  {
    FirstMatchIs(lines, path);
    var m := FirstMatch(lines, path).value;
    var first, other := Repo(lines[m]).value, Repo(lines[i]).value;
    if m != i {
      assert !Hides(lines[m], lines[i]);
      PrefixesNest(path, first, other);
    }
  }

  // ---------------------------------------------------------------------------------------------------------
  // Several repositories at once

  /** The lines of other repositories, and those of none. */
  function Others(lines: seq<string>, repos: set<string>): seq<string> {
    if lines == [] then []
    else (if Repo(lines[0]).Some? && Repo(lines[0]).value in repos then [] else [lines[0]]) + Others(lines[1..], repos)
  }

  lemma {:induction false} AddKeepsOthers(lines: seq<string>, repo: string, line: string, repos: set<string>)
    requires Repo(line) == Some(repo) && repo in repos
    ensures Others(AddLine(lines, repo, line), repos) == Others(lines, repos)
  {
    hide Repo, Contains;
    var added := AddLine(lines, repo, line);
    if lines == [] {
      assert added[1..] == [];
    } else {
      if Repo(lines[0]) == Some(repo) {
        assert added[1..] == lines[1..];
      } else if Repo(lines[0]).Some? && Contains(repo, Repo(lines[0]).value) {
        assert added[1..] == lines;
      } else {
        assert added[1..] == AddLine(lines[1..], repo, line);
        AddKeepsOthers(lines[1..], repo, line, repos);
      }
    }
  }

  lemma {:induction false} AddAgain(lines: seq<string>, repo: string, line: string)
    requires Ordered(lines) && line in lines && Repo(line) == Some(repo)
    ensures AddLine(lines, repo, line) == lines
  {
    hide Repo, Contains;
    var j :| 0 <= j < |lines| && lines[j] == line;
    if Repo(lines[0]) == Some(repo) {
      OrderedUnique(lines, 0, j);
    } else {
      assert !Hides(lines[0], lines[j]);
      assert lines[1..][j - 1] == line;
      AddAgain(lines[1..], repo, line);
    }
  }

  function AddLines(lines: seq<string>, repos: seq<string>, login: string, password: string): seq<string>
    decreases |repos|
  {
    if repos == [] then lines
    else AddLines(AddLine(lines, repos[0], AuthLine(repos[0], login, password)), repos[1..], login, password)
  }

  /** A repository as the editor writes it: no whitespace, a slash at the end. */
  predicate CleanRepo(repo: string) {
    NoSpace(repo) && repo != "" && repo[|repo| - 1] == '/'
  }

  predicate CleanRepos(repos: seq<string>) {
    forall i | 0 <= i < |repos| :: CleanRepo(repos[i])
  }

  lemma SecondWord(first: string, second: string, rest: string)
    requires first != "" && NoSpace(first) && second != "" && NoSpace(second) && rest != "" && IsSpace(rest[0])
    ensures Repo(first + " " + second + rest) == Some(second)
  {
    hide Split;
    var tail := " " + second + rest;
    assert first + " " + second + rest == first + tail;
    SplitWord(first, tail);
    assert tail == " " + (second + rest);
    SplitSpace(tail);
    assert tail[1..] == second + rest;
    SplitWord(second, rest);
    assert Split(first + tail) == [first] + ([second] + Split(rest));
  }

  lemma AuthLineRepo(repo: string, login: string, password: string)
    requires CleanRepo(repo)
    ensures Repo(AuthLine(repo, login, password)) == Some(repo)
  {
    var rest := " login " + login + " password " + password + APT_AUTH_COMMENT;
    assert AuthLine(repo, login, password) == "machine" + " " + repo + rest;
    SecondWord("machine", repo, rest);
  }

  lemma {:induction false} AddLinesOthers(lines: seq<string>, repos: seq<string>, login: string, password: string,
                                          keys: set<string>)
    requires CleanRepos(repos) && forall r | r in repos :: r in keys
    ensures Others(AddLines(lines, repos, login, password), keys) == Others(lines, keys)
    decreases |repos|
  {
    hide Repo, Contains;
    if repos != [] {
      var line := AuthLine(repos[0], login, password);
      AuthLineRepo(repos[0], login, password);
      AddKeepsOthers(lines, repos[0], line, keys);
      AddLinesOthers(AddLine(lines, repos[0], line), repos[1..], login, password, keys);
    }
  }

  /** Adding leaves a line for each repository, with these credentials, and invents no other. */
  lemma {:induction false} AddLinesMembers(lines: seq<string>, repos: seq<string>, login: string, password: string)
    requires CleanRepos(repos)
    ensures var added := AddLines(lines, repos, login, password);
      && (forall r | r in repos :: AuthLine(r, login, password) in added)
      && (forall r | CleanRepo(r) && AuthLine(r, login, password) in lines :: AuthLine(r, login, password) in added)
      && (forall l | l in added :: l in lines || exists r | r in repos :: l == AuthLine(r, login, password))
    decreases |repos|
  {
    if repos != [] {
      var repo, rest := repos[0], repos[1..];
      var line := AuthLine(repo, login, password);
      var next := AddLine(lines, repo, line);
      AuthLineRepo(repo, login, password);
      AddLineMembers(lines, repo, line);
      AddLinesMembers(next, rest, login, password);
      assert forall r | r in repos :: r == repo || r in rest;
      forall r | CleanRepo(r) && AuthLine(r, login, password) in lines ensures AuthLine(r, login, password) in next {
        AuthLineRepo(r, login, password);
        KeptLine(lines, repo, line, AuthLine(r, login, password));
      }
    }
  }

  lemma {:induction false} AddLinesOrdered(lines: seq<string>, repos: seq<string>, login: string, password: string)
    requires Ordered(lines) && CleanRepos(repos)
    ensures Ordered(AddLines(lines, repos, login, password))
    decreases |repos|
  {
    hide Repo, Ordered;
    if repos != [] {
      var line := AuthLine(repos[0], login, password);
      AuthLineRepo(repos[0], login, password);
      AddKeepsOrder(lines, repos[0], line);
      AddLinesOrdered(AddLine(lines, repos[0], line), repos[1..], login, password);
    }
  }

  /** Adding keeps the order and every other line, and leaves one line for each repository, with these credentials. */
  lemma AddLinesLaw(lines: seq<string>, repos: seq<string>, login: string, password: string, keys: set<string>)
    requires Ordered(lines) && CleanRepos(repos) && forall r | r in repos :: r in keys
    ensures Others(AddLines(lines, repos, login, password), keys) == Others(lines, keys)
    ensures var added := AddLines(lines, repos, login, password);
      && Ordered(added)
      && (forall r | r in repos :: AuthLine(r, login, password) in added)
      && (forall r | CleanRepo(r) && AuthLine(r, login, password) in lines :: AuthLine(r, login, password) in added)
      && (forall l | l in added :: l in lines || exists r | r in repos :: l == AuthLine(r, login, password))
  {
    hide Repo, Ordered, AddLines, Others, AuthLine, CleanRepo;
    AddLinesOthers(lines, repos, login, password, keys);
    AddLinesOrdered(lines, repos, login, password);
    AddLinesMembers(lines, repos, login, password);
  }

  /** A line is replaced only by the line of its own repository. */
  lemma {:induction false} KeptLine(lines: seq<string>, repo: string, line: string, other: string)
    requires other in lines && (Repo(other) == Some(repo) ==> other == line)
    ensures other in AddLine(lines, repo, line)
  {
    hide Repo, Contains;
    AddLineMembers(lines, repo, line);
    if other != lines[0] && other != line {
      assert other in lines[1..];
      KeptLine(lines[1..], repo, line, other);
    }
  }

  lemma {:induction false} AddLinesAgain(lines: seq<string>, repos: seq<string>, login: string, password: string)
    requires Ordered(lines) && CleanRepos(repos) && forall r | r in repos :: AuthLine(r, login, password) in lines
    ensures AddLines(lines, repos, login, password) == lines
    decreases |repos|
  {
    hide Repo, Contains;
    if repos != [] {
      AuthLineRepo(repos[0], login, password);
      AddAgain(lines, repos[0], AuthLine(repos[0], login, password));
      AddLinesAgain(lines, repos[1..], login, password);
    }
  }
}
