/** The auth file on disk over any series of additions and removals. */
module AptAuthRuns {
  import opened Json
  import opened Text
  import opened AptAuth
  import opened AptAuthLaws

  // ---------------------------------------------------------------------------------------------------------
  // Which lines a removal takes

  function AuthChar(repo: string, login: string, password: string, i: nat): char
    requires i < |AuthLine(repo, login, password)|
  {
    var a := 8 + |repo|;
    var b := a + 7 + |login|;
    var c := b + 10 + |password|;
    if i < 8 then "machine "[i]
    else if i < a then repo[i - 8]
    else if i < a + 7 then " login "[i - a]
    else if i < b then login[i - a - 7]
    else if i < b + 10 then " password "[i - b]
    else if i < c then password[i - b - 10]
    else APT_AUTH_COMMENT[i - c]
  }

  lemma AuthLineAt(repo: string, login: string, password: string, i: nat)
    requires i < |AuthLine(repo, login, password)|
    ensures AuthLine(repo, login, password)[i] == AuthChar(repo, login, password, i)
  {
  }

  /** The blanks of an auth line are where its words end. */
  lemma AuthLineBlanks(repo: string, login: string, password: string, i: nat)
    requires NoSpace(repo) && NoSpace(login) && NoSpace(password)
    requires i < |AuthLine(repo, login, password)| && AuthLine(repo, login, password)[i] == ' '
    ensures var a := 8 + |repo|;
      var b := a + 7 + |login|;
      var c := b + 10 + |password|;
      i in {7, a, a + 6, b, b + 9, c, c + 1, c + 3}
  {
    AuthLineAt(repo, login, password, i);
  }

  /** A word that ends in a slash, after a word that ends in an `e`: only the repository. */
  lemma SlashWord(repo: string, login: string, password: string, i: nat, j: nat)
    requires CleanRepo(repo) && NoSpace(login) && NoSpace(password)
    requires 0 < i < j < |AuthLine(repo, login, password)|
    requires var line := AuthLine(repo, login, password);
      && line[i - 1] == 'e' && line[i] == ' ' && line[j - 1] == '/' && line[j] == ' '
      && forall k | i < k < j :: line[k] != ' '
    ensures i == 7 && j == 8 + |repo|
  {
    var a := 8 + |repo|;
    var b := a + 7 + |login|;
    var c := b + 10 + |password|;
    AuthLineBlanks(repo, login, password, i);
    AuthLineBlanks(repo, login, password, j);
    AuthLineAt(repo, login, password, i - 1);
    AuthLineAt(repo, login, password, j - 1);
    AuthLineAt(repo, login, password, a);
    AuthLineAt(repo, login, password, b + 9);
    AuthLineAt(repo, login, password, c + 1);
    assert i in {7, b, c};
  }

  lemma RemovalFinds(repo: string, login: string, password: string)
    ensures At(AuthLine(repo, login, password), 0, AuthPrefix(repo))
  {
    var prefix := AuthPrefix(repo);
    var rest := " " + login + " password " + password + APT_AUTH_COMMENT;
    var line := AuthLine(repo, login, password);
    assert " login " == " login" + " ";
    assert line == prefix + rest;
    assert line[..|prefix|] == prefix;
  }

  lemma RemovalFindsOnly(repo: string, login: string, password: string, x: string, q: nat)
    requires CleanRepo(repo) && NoSpace(login) && NoSpace(password) && CleanRepo(x)
    requires At(AuthLine(repo, login, password), q, AuthPrefix(x))
    ensures x == repo
  {
    var line := AuthLine(repo, login, password);
    PatternBlanks(line, q, x);
    SlashWord(repo, login, password, q + 7, q + 8 + |x|);
    SameRepo(repo, login, password, x);
  }

  /** The removal pattern is found in an auth line exactly when it names the repository of that line. */
  lemma RemovalIsExact(repo: string, login: string, password: string, x: string)
    requires CleanRepo(repo) && NoSpace(login) && NoSpace(password) && CleanRepo(x)
    ensures Contains(AuthLine(repo, login, password), AuthPrefix(x)) <==> x == repo
  {
    RemovalFinds(repo, login, password);
    if q :| 0 <= q <= |AuthLine(repo, login, password)| && At(AuthLine(repo, login, password), q, AuthPrefix(x)) {
      RemovalFindsOnly(repo, login, password, x, q);
    }
  }

  lemma SameRepo(repo: string, login: string, password: string, x: string)
    requires CleanRepo(repo) && CleanRepo(x) && |x| == |repo|
    requires At(AuthLine(repo, login, password), 0, AuthPrefix(x))
    ensures x == repo
  {
    PatternBlanks(AuthLine(repo, login, password), 0, x);
    forall k | 0 <= k < |x| ensures x[k] == repo[k] { AuthLineAt(repo, login, password, 8 + k); }
  }

  /** Where the removal pattern stands: `machine`, a blank, `x` without blanks, a blank. */
  lemma PatternBlanks(line: string, q: nat, x: string)
    requires At(line, q, AuthPrefix(x)) && CleanRepo(x)
    ensures q + 8 + |x| < |line| && line[q + 6] == 'e' && line[q + 7] == ' ' && line[q + 8 + |x|] == ' '
    ensures line[q + 7 + |x|] == '/'
    ensures forall k | q + 8 <= k < q + 8 + |x| :: line[k] == x[k - q - 8] && line[k] != ' '
  {
    var prefix := AuthPrefix(x);
    assert forall k | q <= k < q + |prefix| :: line[k] == line[q..q + |prefix|][k - q] == prefix[k - q];
    assert prefix[6] == 'e' && prefix[7] == ' ' && prefix[8 + |x|] == ' ';
    forall k | q + 8 <= k < q + 8 + |x| ensures line[k] == x[k - q - 8] && line[k] != ' ' {
      assert prefix[k - q] == x[k - q - 8];
      assert !IsSpace(x[k - q - 8]);
    }
  }

  // ---------------------------------------------------------------------------------------------------------
  // From files to lines

  lemma AuthLineNoBreak(repo: string, login: string, password: string)
    requires NoSpace(repo) && NoSpace(login) && NoSpace(password)
    ensures NoBreak(AuthLine(repo, login, password))
  {
    hide AuthLine, AuthChar, IsBreak;
    forall i | 0 <= i < |AuthLine(repo, login, password)| ensures !IsBreak(AuthLine(repo, login, password)[i]) {
      AuthLineAt(repo, login, password, i);
      AuthCharNoBreak(repo, login, password, i);
    }
  }

  lemma AuthCharNoBreak(repo: string, login: string, password: string, i: nat)
    requires NoSpace(repo) && NoSpace(login) && NoSpace(password) && i < |AuthLine(repo, login, password)|
    ensures !IsBreak(AuthChar(repo, login, password, i))
  {
    assert |AuthLine(repo, login, password)| == 25 + |repo| + |login| + |password| + |APT_AUTH_COMMENT|;
    hide AuthLine;
  }

  lemma LinesAdded(file: Option<string>, repo: string, login: string, password: string)
    requires NoSpace(repo) && NoSpace(login) && NoSpace(password)
    ensures Lines(Added(file, repo, login, password)) == AddLine(Lines(file), repo, AuthLine(repo, login, password))
  {
    hide Repo, Contains;
    var line := AuthLine(repo, login, password);
    var lines := AddLine(Lines(file), repo, line);
    AuthLineNoBreak(repo, login, password);
    AddLineMembers(Lines(file), repo, line);
    forall i | 0 <= i < |lines + [""]| ensures NoBreak((lines + [""])[i]) {
      if i < |lines| { assert lines[i] in lines; }
    }
    SplitJoin(lines + [""]);
    assert DropLastEmpty(lines + [""]) == lines;
  }

  /** A removal also loses an empty line at the end of what it keeps. */
  lemma LinesRemoved(file: Option<string>, repo: string)
    ensures Lines(Removed(file, repo)) == DropLastEmpty(RemoveLines(Lines(file), repo))
  {
    var kept := RemoveLines(Lines(file), repo);
    RemoveKeepsOrder(Lines(file), repo);
    forall i | 0 <= i < |kept| ensures NoBreak(kept[i]) { assert kept[i] in kept; }
    SplitJoin(kept);
  }

  // ---------------------------------------------------------------------------------------------------------
  // Every reachable file is ordered

  datatype Edit = Add(url: string, login: string, password: string) | Remove(url: string)

  function Step(file: Option<string>, edit: Edit): Option<string> {
    var path := RepoPath(edit.url);
    if path.Failure? then file
    else match edit
      case Add(_, login, password) => Added(file, WithSlash(path.value), login, password)
      case Remove(_) => Removed(file, WithSlash(path.value))
  }

  function Run(file: Option<string>, edits: seq<Edit>): Option<string> {
    if edits == [] then file else Step(Run(file, edits[..|edits| - 1]), edits[|edits| - 1])
  }

  predicate CleanEdit(edit: Edit) {
    NoSpace(edit.url) && (edit.Add? ==> NoSpace(edit.login) && NoSpace(edit.password))
  }

  lemma CleanPath(url: string)
    requires NoSpace(url) && RepoPath(url).Success?
    ensures CleanRepo(WithSlash(RepoPath(url).value))
  {
    var path := RepoPath(url).value;
    var i := FindFrom(url, "://", 0);
    assert path == if i.None? then url else url[i.value + 3..];
    EndsInSlash(path);
    hide EndsWith;
  }

  lemma {:induction false} StepKeepsOrder(file: Option<string>, edit: Edit)
    requires Ordered(Lines(file)) && CleanEdit(edit)
    ensures Ordered(Lines(Step(file, edit)))
  {
    var path := RepoPath(edit.url);
    if path.Success? {
      var repo := WithSlash(path.value);
      CleanPath(edit.url);
      match edit
      case Add(_, login, password) =>
        LinesAdded(file, repo, login, password);
        AuthLineRepo(repo, login, password);
        AddKeepsOrder(Lines(file), repo, AuthLine(repo, login, password));
      case Remove(_) =>
        LinesRemoved(file, repo);
        RemoveKeepsOrder(Lines(file), repo);
    }
  }

  /** The first line that serves `path` names a longer repository than line `i`, if it is another line. */
  ghost predicate LongestAt(lines: seq<string>, path: string, i: int)
    requires 0 <= i < |lines| && Serves(lines[i], path)
  {
    var m := FirstMatch(lines, path);
    && m.Some? && m.value < |lines| && Serves(lines[m.value], path)
    && (m.value != i ==> |Repo(lines[i]).value| < |Repo(lines[m.value]).value|)
  }

  /** For every path, the first line that serves it names the longest repository that does. */
  ghost predicate FirstIsLongest(lines: seq<string>) {
    forall path, i | 0 <= i < |lines| && Serves(lines[i], path) :: LongestAt(lines, path, i)
  }

  lemma OrderedFirstIsLongest(lines: seq<string>)
    requires Ordered(lines)
    ensures FirstIsLongest(lines)
  {
    forall path, i | 0 <= i < |lines| && Serves(lines[i], path) ensures LongestAt(lines, path, i) {
      FirstMatchIsLongest(lines, path, i);
      FirstMatchIs(lines, path);
    }
  }

  /** From an absent file, any series of additions and removals leaves no line whose repository is part of that of
      a later line. */
  lemma {:induction false} ReachableOrdered(edits: seq<Edit>)
    requires forall i | 0 <= i < |edits| :: CleanEdit(edits[i])
    ensures Ordered(Lines(Run(None, edits))) && FirstIsLongest(Lines(Run(None, edits)))
  {
    hide Repo, Contains;
    if edits != [] {
      ReachableOrdered(edits[..|edits| - 1]);
      StepKeepsOrder(Run(None, edits[..|edits| - 1]), edits[|edits| - 1]);
    }
    OrderedFirstIsLongest(Lines(Run(None, edits)));
  }

  // ---------------------------------------------------------------------------------------------------------
  // A list of repositories added, added again, and removed

  function Keys(repos: seq<string>): set<string> {
    set r | r in repos
  }

  lemma AllKeys(repos: seq<string>)
    ensures forall r :: r in repos <==> r in Keys(repos)
    ensures Keys(repos) == {} <==> repos == []
  {
    if repos != [] { assert repos[0] in Keys(repos); }
  }

  lemma KeysFirst(repos: seq<string>)
    requires repos != []
    ensures Keys(repos) == {repos[0]} + Keys(repos[1..])
    ensures repos[1..] == [] ==> Keys(repos[1..]) == {}
  {
  }

  function AddFile(file: Option<string>, repos: seq<string>, login: string, password: string): Option<string>
    decreases |repos|
  {
    if repos == [] then file else AddFile(Added(file, repos[0], login, password), repos[1..], login, password)
  }

  function RemoveFile(file: Option<string>, repos: seq<string>): Option<string>
    decreases |repos|
  {
    if repos == [] then file else RemoveFile(Removed(file, repos[0]), repos[1..])
  }

  lemma {:induction false} LinesAddFile(file: Option<string>, repos: seq<string>, login: string, password: string)
    requires CleanRepos(repos) && NoSpace(login) && NoSpace(password)
    ensures Lines(AddFile(file, repos, login, password)) == AddLines(Lines(file), repos, login, password)
    decreases |repos|
  {
    if repos != [] {
      LinesAdded(file, repos[0], login, password);
      LinesAddFile(Added(file, repos[0], login, password), repos[1..], login, password);
    }
  }

  /** The file is written as the client writes it. */
  ghost predicate AsWritten(file: Option<string>) {
    file == Some(Join("\n", Lines(file) + [""]))
  }

  lemma {:induction false} AddFileWrites(file: Option<string>, repos: seq<string>, login: string, password: string)
    requires CleanRepos(repos) && NoSpace(login) && NoSpace(password)
    ensures repos != [] || AsWritten(file) ==> AsWritten(AddFile(file, repos, login, password))
    decreases |repos|
  {
    hide Lines, Repo, AddLine, AuthLine;
    if repos != [] {
      LinesAdded(file, repos[0], login, password);
      AddFileWrites(Added(file, repos[0], login, password), repos[1..], login, password);
    }
  }

  lemma {:induction false} AddFileAgain(file: Option<string>, repos: seq<string>, login: string, password: string)
    requires AsWritten(file) && Ordered(Lines(file)) && CleanRepos(repos) && NoSpace(login) && NoSpace(password)
    requires forall r | r in repos :: AuthLine(r, login, password) in Lines(file)
    ensures AddFile(file, repos, login, password) == file
    decreases |repos|
  {
    hide Lines, Repo, AddLine, AuthLine;
    if repos != [] {
      AuthLineRepo(repos[0], login, password);
      AddAgain(Lines(file), repos[0], AuthLine(repos[0], login, password));
      AddFileAgain(file, repos[1..], login, password);
    }
  }

  /** Afterwards each repository has exactly one line, with these credentials; the other lines are as before, in
      order; the file is ordered; and adding the list again leaves the file as it is. */
  lemma AddFileLaw(file: Option<string>, repos: seq<string>, login: string, password: string)
    requires Ordered(Lines(file)) && CleanRepos(repos) && NoSpace(login) && NoSpace(password)
    ensures var after := AddFile(file, repos, login, password);
      var lines := Lines(after);
      && Ordered(lines)
      && Others(lines, Keys(repos)) == Others(Lines(file), Keys(repos))
      && (forall r | r in repos :: AuthLine(r, login, password) in lines)
      && (forall i, j | 0 <= i < |lines| && 0 <= j < |lines| && Repo(lines[i]).Some? ::
            Repo(lines[i]) == Repo(lines[j]) ==> i == j)
      && AddFile(after, repos, login, password) == after
  {
    hide Repo, Contains, Lines, AuthLine, AsWritten;
    var after := AddFile(file, repos, login, password);
    var lines := Lines(after);
    LinesAddFile(file, repos, login, password);
    AllKeys(repos);
    AddLinesLaw(Lines(file), repos, login, password, Keys(repos));
    if repos != [] {
      AddFileWrites(file, repos, login, password);
      AddFileAgain(after, repos, login, password);
    }
    forall i, j | 0 <= i < |lines| && 0 <= j < |lines| && Repo(lines[i]).Some?
      ensures Repo(lines[i]) == Repo(lines[j]) ==> i == j
    {
      if Repo(lines[i]) == Repo(lines[j]) { OrderedUnique(lines, i, j); }
    }
  }

  // ---------------------------------------------------------------------------------------------------------
  // Removing the list again restores the file

  /** No line is of these repositories. */
  ghost predicate Absent(lines: seq<string>, repos: set<string>) {
    forall l, r | l in lines && r in repos :: Repo(l) != Some(r)
  }

  /** No line holds the removal pattern of one of these repositories, not even in a comment. */
  ghost predicate NoPattern(lines: seq<string>, repos: set<string>) {
    forall l, r | l in lines && r in repos :: !Contains(l, AuthPrefix(r))
  }

  /** The removal pattern finds exactly the lines of its repository. */
  ghost predicate Faithful(lines: seq<string>, repos: set<string>) {
    forall l, r {:trigger FaithfulLine(l, r)} | l in lines && r in repos :: FaithfulLine(l, r)
  }

  ghost predicate FaithfulLine(line: string, repo: string) {
    Contains(line, AuthPrefix(repo)) <==> Repo(line) == Some(repo)
  }

  lemma AddedFaithful(orig: seq<string>, adding: seq<string>, removing: seq<string>, login: string,
                      password: string)
    requires CleanRepos(adding) && CleanRepos(removing) && NoSpace(login) && NoSpace(password)
    requires Absent(orig, Keys(removing)) && NoPattern(orig, Keys(removing))
    ensures Faithful(AddLines(orig, adding, login, password), Keys(removing))
  {
    hide Repo, Contains;
    AddLinesMembers(orig, adding, login, password);
    forall l, x | l in AddLines(orig, adding, login, password) && x in removing
      ensures FaithfulLine(l, x)
    {
      if l !in orig {
        var r :| r in adding && l == AuthLine(r, login, password);
        AuthLineRepo(r, login, password);
        RemovalIsExact(r, login, password, x);
      }
    }
  }

  lemma {:induction false} RemoveFaithful(lines: seq<string>, repo: string)
    requires Faithful(lines, {repo})
    ensures RemoveLines(lines, repo) == Others(lines, {repo})
  {
    hide Repo, Contains;
    if lines != [] {
      assert FaithfulLine(lines[0], repo);
      RemoveFaithful(lines[1..], repo);
    }
  }

  lemma {:induction false} OthersTwice(lines: seq<string>, a: set<string>, b: set<string>)
    ensures Others(Others(lines, a), b) == Others(lines, a + b)
    ensures forall l | l in Others(lines, a) :: l in lines
  {
    hide Repo, Contains;
    if lines != [] {
      OthersTwice(lines[1..], a, b);
      var rest := Others(lines[1..], a);
      assert ([lines[0]] + rest)[1..] == rest && [] + rest == rest;
    }
  }

  lemma {:induction false} OthersOfNone(lines: seq<string>, repos: set<string>)
    requires forall l | l in lines :: Repo(l).None? || Repo(l).value !in repos
    ensures Others(lines, repos) == lines
  {
    hide Repo, Contains;
    if lines != [] { OthersOfNone(lines[1..], repos); }
  }

  lemma {:induction false} OthersEndsEmpty(lines: seq<string>, repos: set<string>)
    requires lines != [] && lines[|lines| - 1] == ""
    ensures Others(lines, repos) == Others(lines[..|lines| - 1], repos) + [""]
  {
    assert Repo("").None?;
    if |lines| == 1 {
      assert lines[1..] == [] && lines[..0] == [];
    } else {
      OthersEndsEmpty(lines[1..], repos);
      assert lines[1..][..|lines| - 2] == lines[..|lines| - 1][1..];
    }
  }

  function RemoveLinesAll(lines: seq<string>, repos: seq<string>): seq<string>
    decreases |repos|
  {
    if repos == [] then lines else RemoveLinesAll(DropLastEmpty(RemoveLines(lines, repos[0])), repos[1..])
  }

  lemma {:induction false} LinesRemoveFile(file: Option<string>, repos: seq<string>)
    ensures Lines(RemoveFile(file, repos)) == RemoveLinesAll(Lines(file), repos)
    decreases |repos|
  {
    if repos != [] {
      LinesRemoved(file, repos[0]);
      LinesRemoveFile(Removed(file, repos[0]), repos[1..]);
    }
  }

  /** One removal takes the lines of one repository, and perhaps an empty line at the end. */
  lemma RemoveOne(lines: seq<string>, orig: seq<string>, m: nat, repos: seq<string>, next: seq<string>)
    returns (k: nat)
    requires repos != [] && next == DropLastEmpty(RemoveLines(lines, repos[0]))
    requires Faithful(lines, Keys(repos)) && m <= |orig| && Others(lines, Keys(repos)) == orig[..m]
    ensures Faithful(next, Keys(repos[1..])) && k <= m && Others(next, Keys(repos[1..])) == orig[..k]
    ensures k == m || (k == m - 1 && orig[k] == "")
    ensures k == |orig| && orig != [] && repos[1..] == [] ==> orig[k - 1] != ""
  {
    hide Repo, Contains, Others, RemoveLines, FaithfulLine;
    var rest := Keys(repos[1..]);
    KeysFirst(repos);
    RemoveFaithful(lines, repos[0]);
    OthersTwice(lines, {repos[0]}, rest);
    var kept := Others(lines, {repos[0]});
    k := m;
    if kept != [] && kept[|kept| - 1] == "" {
      OthersEndsEmpty(kept, rest);
      k := m - 1;
      assert orig[..m][m - 1] == "" && orig[..m][..m - 1] == orig[..k];
    }
    if rest == {} {
      OthersOfNone(kept, rest);
    }
  }

  lemma NoneLeft(lines: seq<string>)
    ensures Others(lines, Keys([])) == lines
  {
    OthersOfNone(lines, Keys([]));
  }

  /** `left` is `orig[..m]` less some of the empty lines at its end; and less at least one of them, where `orig`
      ends in one and `strict` holds. */
  ghost predicate Leaves(left: seq<string>, orig: seq<string>, m: nat, strict: bool)
    requires m <= |orig|
  {
    && |left| <= m && left == orig[..|left|]
    && (forall i | |left| <= i < m :: orig[i] == "")
    && (strict && |left| == |orig| != 0 ==> orig[|orig| - 1] != "")
  }

  /** Removing all the repositories leaves the original lines, less some of the empty lines at their end. */
  lemma {:induction false} RemoveAllLeaves(lines: seq<string>, orig: seq<string>, m: nat, repos: seq<string>)
    requires Faithful(lines, Keys(repos)) && m <= |orig| && Others(lines, Keys(repos)) == orig[..m]
    ensures Leaves(RemoveLinesAll(lines, repos), orig, m, repos != [])
    decreases |repos|
  {
    hide Repo, Contains;
    if repos == [] {
      NoneLeft(lines);
    } else {
      var next := DropLastEmpty(RemoveLines(lines, repos[0]));
      var k := RemoveOne(lines, orig, m, repos, next);
      RemoveAllLeaves(next, orig, k, repos[1..]);
    }
  }

  lemma OthersKept(orig: seq<string>, adding: seq<string>, removing: seq<string>, login: string, password: string)
    requires CleanRepos(adding) && Keys(adding) <= Keys(removing) && Absent(orig, Keys(removing))
    ensures Others(AddLines(orig, adding, login, password), Keys(removing)) == orig[..|orig|]
  {
    hide Contains, Others, AddLines, AuthPrefix;
    assert forall r | r in adding :: r in Keys(adding);
    AddLinesOthers(orig, adding, login, password, Keys(removing));
    OthersOfNone(orig, Keys(removing));
  }

  lemma LeavesAll(left: seq<string>, orig: seq<string>)
    requires Leaves(left, orig, |orig|, true)
    ensures left == orig <==> DropLastEmpty(orig) == orig
  {
    if |left| < |orig| { assert orig[|orig| - 1] == ""; }
  }

  /** A line that no removal pattern finds outlasts the removals. */
  lemma {:induction false} LineStays(lines: seq<string>, line: string, repos: seq<string>)
    requires line in lines && line != "" && forall r | r in repos :: !Contains(line, AuthPrefix(r))
    ensures line in RemoveLinesAll(lines, repos)
    decreases |repos|
  {
    hide Contains, AuthPrefix;
    if repos != [] {
      NotRemoved(lines, line, repos[0]);
      var kept := RemoveLines(lines, repos[0]);
      var i :| 0 <= i < |kept| && kept[i] == line;
      assert DropLastEmpty(kept)[i] == line;
      LineStays(DropLastEmpty(kept), line, repos[1..]);
    }
  }

  lemma {:induction false} NotRemoved(lines: seq<string>, line: string, repo: string)
    requires line in lines && !Contains(line, AuthPrefix(repo))
    ensures line in RemoveLines(lines, repo)
  {
    hide Contains, AuthPrefix;
    if line != lines[0] { NotRemoved(lines[1..], line, repo); }
  }

  /** A line that holds a removed pattern is gone, and no removal brings it back. */
  lemma {:induction false} PatternGoes(lines: seq<string>, line: string, repos: seq<string>)
    requires line in lines ==> exists r :: r in repos && Contains(line, AuthPrefix(r))
    ensures line !in RemoveLinesAll(lines, repos)
    decreases |repos|
  {
    hide Contains, AuthPrefix;
    if repos != [] {
      var kept := RemoveLines(lines, repos[0]);
      RemovedAreGone(lines, repos[0]);
      RemoveKeepsOrder(lines, repos[0]);
      if line in DropLastEmpty(kept) {
        assert line in kept;
        var r :| r in repos && Contains(line, AuthPrefix(r));
        assert r in repos[1..];
      }
      PatternGoes(DropLastEmpty(kept), line, repos[1..]);
    }
  }

  lemma {:induction false} RemovedAreGone(lines: seq<string>, repo: string)
    ensures forall l | l in RemoveLines(lines, repo) :: !Contains(l, AuthPrefix(repo))
  {
    hide Contains, AuthPrefix;
    if lines != [] { RemovedAreGone(lines[1..], repo); }
  }

  lemma PatternNotRestored(orig: seq<string>, adding: seq<string>, removing: seq<string>, login: string,
                           password: string)
    requires !NoPattern(orig, Keys(removing))
    ensures RemoveLinesAll(AddLines(orig, adding, login, password), removing) != orig
  {
    AllKeys(removing);
    hide Contains, AuthPrefix, Keys;
    var l, r :| l in orig && r in Keys(removing) && Contains(l, AuthPrefix(r));
    hide *;
    PatternGoes(AddLines(orig, adding, login, password), l, removing);
  }

  /** What is added and not removed again is left behind. */
  lemma AddedStays(orig: seq<string>, adding: seq<string>, removing: seq<string>, login: string, password: string,
                   repo: string)
    requires CleanRepos(adding) && CleanRepos(removing) && NoSpace(login) && NoSpace(password)
    requires repo in adding && repo !in removing && Absent(orig, Keys(adding))
    ensures RemoveLinesAll(AddLines(orig, adding, login, password), removing) != orig
  {
    hide *;
    var line, added := AuthLine(repo, login, password), AddLines(orig, adding, login, password);
    AllKeys(adding);
    AddLinesMembers(orig, adding, login, password);
    assert CleanRepo(repo) by { AllClean(adding); }
    AllClean(removing);
    forall r | r in removing ensures !Contains(line, AuthPrefix(r)) { RemovalIsExact(repo, login, password, r); }
    NewLine(orig, repo, login, password, Keys(adding));
    LineStays(added, line, removing);
  }

  lemma AllClean(repos: seq<string>)
    requires CleanRepos(repos)
    ensures forall r | r in repos :: CleanRepo(r)
  {
    hide CleanRepo;
  }

  lemma NewLine(orig: seq<string>, repo: string, login: string, password: string, repos: set<string>)
    requires CleanRepo(repo) && repo in repos && Absent(orig, repos)
    ensures AuthLine(repo, login, password) != "" && AuthLine(repo, login, password) !in orig
  {
    hide Contains, CleanRepo;
    AuthLineRepo(repo, login, password);
    assert Repo("").None?;
  }

  lemma LinesRestored(orig: seq<string>, adding: seq<string>, removing: seq<string>, login: string, password: string)
    requires CleanRepos(adding) && CleanRepos(removing) && NoSpace(login) && NoSpace(password)
    requires Absent(orig, Keys(adding)) && Absent(orig, Keys(removing))
    ensures RemoveLinesAll(AddLines(orig, adding, login, password), removing) == orig
      <==> Keys(adding) <= Keys(removing) && NoPattern(orig, Keys(removing))
           && (removing == [] || DropLastEmpty(orig) == orig)
  {
    hide *;
    AllKeys(adding);
    AllKeys(removing);
    var added := AddLines(orig, adding, login, password);
    if repo :| repo in adding && repo !in removing {
      AddedStays(orig, adding, removing, login, password, repo);
    } else if !NoPattern(orig, Keys(removing)) {
      PatternNotRestored(orig, adding, removing, login, password);
    } else if removing == [] {
      assert adding == [];
      AddNone(orig, login, password);
    } else {
      AddedFaithful(orig, adding, removing, login, password);
      OthersKept(orig, adding, removing, login, password);
      RemoveAllLeaves(added, orig, |orig|, removing);
      LeavesAll(RemoveLinesAll(added, removing), orig);
    }
  }

  lemma AddNone(orig: seq<string>, login: string, password: string)
    ensures RemoveLinesAll(AddLines(orig, [], login, password), []) == orig
  {
  }

  /** Adding some repositories and removing some restores the lines, when none of them was there before, exactly if
      all that were added are removed, no line holds one of the removed patterns, and the file did not end in an empty
      line. */
  lemma RemovalRestores(file: Option<string>, adding: seq<string>, removing: seq<string>, login: string,
                        password: string)
    requires CleanRepos(adding) && CleanRepos(removing) && NoSpace(login) && NoSpace(password)
    requires Absent(Lines(file), Keys(adding)) && Absent(Lines(file), Keys(removing))
    ensures var after := RemoveFile(AddFile(file, adding, login, password), removing);
      Lines(after) == Lines(file) <==>
        && Keys(adding) <= Keys(removing) && NoPattern(Lines(file), Keys(removing))
        && (removing == [] || DropLastEmpty(Lines(file)) == Lines(file))
  {
    hide Repo, Contains;
    LinesAddFile(file, adding, login, password);
    LinesRemoveFile(AddFile(file, adding, login, password), removing);
    LinesRestored(Lines(file), adding, removing, login, password);
  }

  // ---------------------------------------------------------------------------------------------------------
  // Trailing slashes

  lemma EndsInSlash(s: string)
    ensures EndsWith(s, "/") <==> s != "" && s[|s| - 1] == '/'
    ensures EndsWith(s, "//") <==> |s| >= 2 && s[|s| - 1] == '/' && s[|s| - 2] == '/'
  {
    if s != "" { assert s[|s| - 1..|s|] == [s[|s| - 1]]; }
    if |s| >= 2 { assert s[|s| - 2..|s|] == [s[|s| - 2], s[|s| - 1]]; }
  }

  lemma StrippedKey(path: string)
    requires EndsWith(path, "/")
    ensures WithSlash(Stripped(path)) == WithSlash(path) <==> !EndsWith(path, "//")
  {
    var rest := path[..|path| - 1];
    EndsInSlash(path);
    EndsInSlash(rest);
    assert rest + "/" == path;
    assert WithSlash(rest) == path <==> !EndsWith(rest, "/") by {
      if EndsWith(rest, "/") { assert |WithSlash(rest)| != |path|; }
    }
  }

  /** Stripping the last character takes away the pattern only where the pattern ends there. */
  lemma FindStripped(url: string, part: string)
    requires EndsWith(url, "/") && part != ""
    ensures var i, j := FindFrom(url, part, 0), FindFrom(Stripped(url), part, 0);
      j == if i.Some? && i.value + |part| == |url| then None else i
  {
    var s := Stripped(url);
    forall k | 0 <= k && k + |part| <= |s| ensures At(s, k, part) <==> At(url, k, part) {
      assert s[k..k + |part|] == url[k..k + |part|];
    }
  }

  /** The repository under which a url is kept. */
  function Key(url: string): Option<string> {
    if RepoPath(url).Success? then Some(WithSlash(RepoPath(url).value)) else None
  }

  lemma RepoPathAt(url: string, i: nat)
    requires FindFrom(url, "://", 0) == Some(i) && !Contains(url[i + 3..], "://")
    ensures RepoPath(url) == Success(url[i + 3..])
  {
  }

  lemma StrippedHoldsLess(s: string, part: string)
    requires !Contains(s, part)
    ensures !Contains(Stripped(s), part)
  {
    if EndsWith(s, "/") && Contains(Stripped(s), part) { ContainsPrefix(s, |s| - 1, part); }
  }

  lemma TailStripped(s: string, n: nat)
    requires n < |s| && EndsWith(s, "/")
    ensures EndsWith(s[n..], "/") && Stripped(s)[n..] == Stripped(s[n..])
  {
    EndsInSlash(s);
    EndsInSlash(s[n..]);
  }

  lemma WithPath(url: string, i: nat)
    requires FindFrom(url, "://", 0) == Some(i) && i + 3 < |url| && EndsWith(url, "/") && RepoPath(url).Success?
    ensures Key(Stripped(url)) == Key(url) <==> !EndsWith(url[i + 3..], "//")
  {
    FindStripped(url, "://");
    TailStripped(url, i + 3);
    StrippedHoldsLess(url[i + 3..], "://");
    RepoPathAt(Stripped(url), i);
    StrippedKey(url[i + 3..]);
  }

  lemma NoProtocol(url: string)
    requires EndsWith(url, "/") && FindFrom(url, "://", 0).None?
    ensures Key(Stripped(url)) == Key(url) <==> !EndsWith(url, "//")
  {
    FindStripped(url, "://");
    StrippedKey(url);
  }

  /** Nothing follows `://`: the stripped url has no protocol any more. */
  lemma MissingPath(url: string, i: nat)
    requires FindFrom(url, "://", 0) == Some(i) && i + 3 == |url|
    ensures EndsWith(url, "://") && Key(Stripped(url)) != Key(url)
  {
    hide FindFrom;
    assert url[|url| - 1] == url[|url| - 3..|url|][2];
    EndsInSlash(url);
    FindStripped(url, "://");
    assert url[i + 3..] == "";
    assert RepoPath(url) == Success("");
    assert RepoPath(Stripped(url)) == Success(Stripped(url));
    assert |WithSlash("")| < 2 <= |Stripped(url)| <= |WithSlash(Stripped(url))|;
  }

  /** A url that goes on after `://` and ends in it holds it twice. */
  lemma AtTheEnd(url: string, i: nat)
    requires At(url, i, "://") && i + 3 < |url| && EndsWith(url, "://")
    ensures Contains(url[i + 3..], "://")
  {
    var path, last := url[i + 3..], url[|url| - 3..|url|];
    assert url[i + 1] == url[i..i + 3][1] && url[i + 2] == url[i..i + 3][2] && url[|url| - 3] == last[0];
    assert path[|path| - 3..|path|] == last;
    assert At(path, |path| - 3, "://");
  }

  ghost predicate SlashesMatter(url: string)
    requires RepoPath(url).Success?
  {
    EndsWith(RepoPath(url).value, "//") || EndsWith(url, "://")
  }

  /** Adding strips one slash from the repository url before it is keyed, removing does not: the two agree unless
      the path of the url ends in two slashes or is missing altogether. */
  lemma SlashesAgree(url: string)
    requires RepoPath(url).Success?
    ensures Key(Stripped(url)) == Key(url) <==> !SlashesMatter(url)
  {
    hide FindFrom, Contains, WithSlash, Key;
    var i := FindFrom(url, "://", 0);
    if !EndsWith(url, "/") {
      NoSlash(url);
    } else if i.None? {
      NoProtocol(url);
    } else if i.value + 3 == |url| {
      MissingPath(url, i.value);
    } else {
      WithPath(url, i.value);
      if EndsWith(url, "://") { AtTheEnd(url, i.value); }
    }
  }

  lemma NoSlash(url: string)
    requires RepoPath(url).Success? && !EndsWith(url, "/")
    ensures !SlashesMatter(url)
  {
    EndsInSlash(url);
    EndsInSlash(RepoPath(url).value);
    assert |url| >= 3 ==> url[|url| - 3..|url|][2] == url[|url| - 1];
  }

  // ---------------------------------------------------------------------------------------------------------
  // A service's repository added and removed

  ghost predicate CleanUrls(urls: seq<string>) {
    forall i | 0 <= i < |urls| :: NoSpace(urls[i]) && RepoPath(urls[i]).Success?
  }

  function KeysOf(urls: seq<string>): seq<string>
    requires CleanUrls(urls)
  {
    seq(|urls|, i requires 0 <= i < |urls| => WithSlash(RepoPath(urls[i]).value))
  }

  lemma {:induction false} UrlsAsRepos(file: Option<string>, urls: seq<string>, login: string, password: string)
    requires CleanUrls(urls)
    ensures CleanRepos(KeysOf(urls))
    ensures AddUrls(file, urls, login, password) == (AddFile(file, KeysOf(urls), login, password), true)
    ensures RemoveUrls(file, urls) == (RemoveFile(file, KeysOf(urls)), true)
    decreases |urls|
  {
    hide RepoPath, WithSlash, Added, Removed;
    forall i | 0 <= i < |urls| ensures CleanRepo(KeysOf(urls)[i]) { CleanPath(urls[i]); }
    if urls != [] {
      assert KeysOf(urls)[1..] == KeysOf(urls[1..]);
      UrlsAsRepos(Added(file, KeysOf(urls)[0], login, password), urls[1..], login, password);
      UrlsAsRepos(Removed(file, KeysOf(urls)[0]), urls[1..], login, password);
    }
  }

  /** Stripping a slash never adds a `://`. */
  lemma StrippedUnpacks(url: string)
    requires RepoPath(url).Success?
    ensures RepoPath(Stripped(url)).Success?
  {
    hide FindFrom, Contains;
    var i := FindFrom(url, "://", 0);
    if EndsWith(url, "/") {
      FindStripped(url, "://");
      if i.Some? && i.value + 3 < |url| {
        StrippedHoldsLess(url[i.value + 3..], "://");
        TailStripped(url, i.value + 3);
      }
    }
  }

  /** All repositories that adding and removing a service's urls write. */
  ghost function Touched(repoUrl: string, snapshotUrls: seq<string>): set<string>
    requires RepoPath(repoUrl).Success? && CleanUrls(snapshotUrls)
  {
    StrippedUnpacks(repoUrl);
    {Key(repoUrl).value, Key(Stripped(repoUrl)).value} + Keys(KeysOf(snapshotUrls))
  }

  lemma UrlsWithRepo(url: string, snapshotUrls: seq<string>)
    requires NoSpace(url) && RepoPath(url).Success? && CleanUrls(snapshotUrls)
    ensures CleanUrls([url] + snapshotUrls) && KeysOf([url] + snapshotUrls) == [Key(url).value] + KeysOf(snapshotUrls)
  {
    hide RepoPath, WithSlash, NoSpace;
    var urls := [url] + snapshotUrls;
    forall i | 0 <= i < |urls| ensures NoSpace(urls[i]) && RepoPath(urls[i]).Success? {
      if i > 0 { assert urls[i] == snapshotUrls[i - 1]; }
    }
  }

  /** Removing a service's urls undoes adding them, if none of their lines was there before, exactly when the file did
      not end in an empty line, no line holds the removal pattern of one of them, and the slashes of the repository url
      do not matter; or, if they do, when one of the snapshots is kept as the same repository. */
  lemma RemoveUndoesAdd(file: Option<string>, repoUrl: string, snapshotUrls: seq<string>, login: string,
                        password: string)
    requires NoSpace(login) && NoSpace(password)
    requires NoSpace(repoUrl) && RepoPath(repoUrl).Success? && CleanUrls(snapshotUrls)
    requires Absent(Lines(file), Touched(repoUrl, snapshotUrls))
    ensures var (added, allAdded) := AddUrls(file, [Stripped(repoUrl)] + snapshotUrls, login, password);
      var (removed, allRemoved) := RemoveUrls(added, [repoUrl] + snapshotUrls);
      && allAdded && allRemoved
      && (Lines(removed) == Lines(file) <==>
            && DropLastEmpty(Lines(file)) == Lines(file)
            && NoPattern(Lines(file), {Key(repoUrl).value} + Keys(KeysOf(snapshotUrls)))
            && (SlashesMatter(repoUrl) ==> exists k | k in KeysOf(snapshotUrls) :: Key(Stripped(repoUrl)) == Some(k)))
  {
    StrippedNoSpace(repoUrl);
    StrippedUnpacks(repoUrl);
    UrlsWithRepo(repoUrl, snapshotUrls);
    UrlsWithRepo(Stripped(repoUrl), snapshotUrls);
    var removing, adding := KeysOf([repoUrl] + snapshotUrls), KeysOf([Stripped(repoUrl)] + snapshotUrls);
    hide *;
    UrlsAsRepos(file, [Stripped(repoUrl)] + snapshotUrls, login, password);
    UrlsAsRepos(AddFile(file, adding, login, password), [repoUrl] + snapshotUrls, login, password);
    KeysTouched(repoUrl, snapshotUrls, adding, removing);
    AbsentSome(Lines(file), Touched(repoUrl, snapshotUrls), Keys(adding));
    AbsentSome(Lines(file), Touched(repoUrl, snapshotUrls), Keys(removing));
    RemovalRestores(file, adding, removing, login, password);
  }

  lemma AbsentSome(lines: seq<string>, all: set<string>, some: set<string>)
    requires Absent(lines, all) && some <= all
    ensures Absent(lines, some)
  {
  }

  lemma KeysTouched(repoUrl: string, snapshotUrls: seq<string>, adding: seq<string>, removing: seq<string>)
    requires RepoPath(repoUrl).Success? && CleanUrls(snapshotUrls)
    requires Key(Stripped(repoUrl)).Some? && adding == [Key(Stripped(repoUrl)).value] + KeysOf(snapshotUrls)
    requires removing == [Key(repoUrl).value] + KeysOf(snapshotUrls)
    ensures Keys(adding) <= Touched(repoUrl, snapshotUrls) && Keys(removing) <= Touched(repoUrl, snapshotUrls)
    ensures Keys(removing) == {Key(repoUrl).value} + Keys(KeysOf(snapshotUrls))
    ensures Keys(adding) <= Keys(removing) <==>
      (SlashesMatter(repoUrl) ==> exists k | k in KeysOf(snapshotUrls) :: Key(Stripped(repoUrl)) == Some(k))
  {
    hide RepoPath, WithSlash, EndsWith, Stripped, SlashesMatter;
    SlashesAgree(repoUrl);
    KeysFirst(removing);
    KeysFirst(adding);
    assert removing[1..] == KeysOf(snapshotUrls) == adding[1..];
    assert Key(Stripped(repoUrl)).value in Keys(adding);
  }

  lemma StrippedNoSpace(url: string)
    requires NoSpace(url)
    ensures NoSpace(Stripped(url))
  {
  }
}
