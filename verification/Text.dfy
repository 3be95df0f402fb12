/** The Python string operations the client uses on configuration files. */
module Text {

  // ---------------------------------------------------------------------------------------------------------
  // Characters

  /** A line boundary of `str.splitlines`; `\r\n` is one boundary. */
  predicate IsBreak(c: char) {
    || '\n' <= c <= '\r' || '\U{1c}' <= c <= '\U{1e}' || c == '\U{85}' || c == '\U{2028}' || c == '\U{2029}'
  }

  /** Whitespace, as `str.split` knows it. */
  predicate IsSpace(c: char) {
    || IsBreak(c) || c == '\t' || c == ' ' || c == '\U{1f}' || c == '\U{a0}' || c == '\U{1680}'
    || '\U{2000}' <= c <= '\U{200a}' || c == '\U{202f}' || c == '\U{205f}' || c == '\U{3000}'
  }

  predicate NoSpace(s: string) {
    forall i | 0 <= i < |s| :: !IsSpace(s[i])
  }

  predicate NoBreak(s: string) {
    forall i | 0 <= i < |s| :: !IsBreak(s[i])
  }

  // ---------------------------------------------------------------------------------------------------------
  // Substrings

  predicate At(s: string, i: int, part: string) {
    0 <= i <= |s| - |part| && s[i..i + |part|] == part
  }

  /** `part in s`. */
  predicate Contains(s: string, part: string) {
    exists i | 0 <= i <= |s| :: At(s, i, part)
  }

  predicate StartsWith(s: string, part: string) {
    At(s, 0, part)
  }

  predicate EndsWith(s: string, part: string) {
    At(s, |s| - |part|, part)
  }

  lemma ContainsSelf(s: string)
    ensures Contains(s, s)
  {
    assert At(s, 0, s);
  }

  lemma ContainsTrans(s: string, t: string, u: string)
    requires Contains(s, t) && Contains(t, u)
    ensures Contains(s, u)
  {
    var i :| 0 <= i <= |s| && At(s, i, t);
    var j :| 0 <= j <= |t| && At(t, j, u);
    forall k | 0 <= k < |u| ensures s[i + j + k] == u[k] {
      assert s[i + j + k] == s[i..i + |t|][j + k] == t[j..j + |u|][k];
    }
    assert At(s, i + j, u);
  }

  /** Two strings contained in each other are equal. */
  lemma ContainsAntisymmetric(s: string, t: string)
    requires Contains(s, t) && Contains(t, s)
    ensures s == t
  {
    var i :| 0 <= i <= |s| && At(s, i, t);
    var j :| 0 <= j <= |t| && At(t, j, s);
    assert i == 0 && s[0..|s|] == s;
  }

  lemma ContainsPrefix(s: string, n: nat, t: string)
    requires n <= |s| && Contains(s[..n], t)
    ensures Contains(s, t)
  {
    var i :| 0 <= i <= n && At(s[..n], i, t);
    assert s[i..i + |t|] == s[..n][i..i + |t|];
    assert At(s, i, t);
  }

  // ---------------------------------------------------------------------------------------------------------
  // Words

  function SkipSpaces(s: string): (r: string)
    ensures |r| <= |s| && (r != "" ==> !IsSpace(r[0]))
  {
    if s != "" && IsSpace(s[0]) then SkipSpaces(s[1..]) else s
  }

  function WordLength(s: string): (n: nat)
    ensures n <= |s| && (s != "" && !IsSpace(s[0]) ==> n > 0)
  {
    if s == "" || IsSpace(s[0]) then 0 else 1 + WordLength(s[1..])
  }

  /** `s.split()`. */
  function Split(s: string): seq<string>
    decreases |s|
  {
    var t := SkipSpaces(s);
    if t == "" then [] else [t[..WordLength(t)]] + Split(t[WordLength(t)..])
  }

  lemma {:induction false} WordLengthIs(word: string, rest: string)
    requires NoSpace(word) && (rest == "" || IsSpace(rest[0]))
    ensures WordLength(word + rest) == |word|
  {
    if word == "" {
      assert word + rest == rest;
    } else {
      assert (word + rest)[1..] == word[1..] + rest;
      WordLengthIs(word[1..], rest);
    }
  }

  lemma SplitWord(word: string, rest: string)
    requires word != "" && NoSpace(word) && (rest == "" || IsSpace(rest[0]))
    ensures Split(word + rest) == [word] + Split(rest)
  {
    WordLengthIs(word, rest);
    assert SkipSpaces(word + rest) == word + rest;
  }

  lemma SplitSpace(s: string)
    requires s != "" && IsSpace(s[0])
    ensures Split(s) == Split(s[1..])
  {
  }

  /** Words end at blanks, tabs and line boundaries, any number of them. */
  lemma SplitAtSpaces(word: string, spaces: string, rest: string)
    requires word != "" && NoSpace(word) && spaces != ""
    requires forall i | 0 <= i < |spaces| :: spaces[i] in " \t\n\r\U{0b}\U{0c}"
    ensures Split(word + spaces + rest) == [word] + Split(rest)
  {
    assert word + spaces + rest == word + (spaces + rest);
    assert IsSpace(spaces[0]);
    SplitWord(word, spaces + rest);
    SkipAll(spaces, rest);
  }

  lemma {:induction false} SkipAll(spaces: string, rest: string)
    requires forall i | 0 <= i < |spaces| :: spaces[i] in " \t\n\r\U{0b}\U{0c}"
    ensures Split(spaces + rest) == Split(rest)
  {
    if spaces == "" {
      assert spaces + rest == rest;
    } else {
      SplitSpace(spaces + rest);
      assert (spaces + rest)[1..] == spaces[1..] + rest;
      SkipAll(spaces[1..], rest);
    }
  }

  // ---------------------------------------------------------------------------------------------------------
  // Lines

  /** The length of the first line, without its boundary. */
  function LineLength(s: string): (n: nat)
    ensures n <= |s| && NoBreak(s[..n]) && (n < |s| ==> IsBreak(s[n]))
  {
    if s == "" || IsBreak(s[0]) then 0 else 1 + LineLength(s[1..])
  }

  /** `s.splitlines()`. */
  function SplitLines(s: string): (lines: seq<string>)
    ensures forall i | 0 <= i < |lines| :: NoBreak(lines[i])
  {
    if s == "" then []
    else
      var n := LineLength(s);
      if n == |s| then [s]
      else if s[n] == '\r' && n + 1 < |s| && s[n + 1] == '\n' then [s[..n]] + SplitLines(s[n + 2..])
      else [s[..n]] + SplitLines(s[n + 1..])
  }

  /** `sep.join(parts)`. */
  function Join(sep: string, parts: seq<string>): string {
    if parts == [] then ""
    else if |parts| == 1 then parts[0]
    else parts[0] + sep + Join(sep, parts[1..])
  }

  lemma {:induction false} LineLengthIs(line: string, rest: string)
    requires NoBreak(line) && (rest == "" || IsBreak(rest[0]))
    ensures LineLength(line + rest) == |line|
  {
    if line == "" {
      assert line + rest == rest;
    } else {
      assert (line + rest)[1..] == line[1..] + rest;
      LineLengthIs(line[1..], rest);
    }
  }

  function DropLastEmpty(lines: seq<string>): seq<string> {
    if lines != [] && lines[|lines| - 1] == "" then lines[..|lines| - 1] else lines
  }

  lemma SplitFirstLine(line: string, rest: string)
    requires NoBreak(line)
    ensures SplitLines(line + "\n" + rest) == [line] + SplitLines(rest)
  {
    SplitAtOne(line, '\n', rest);
  }

  const BOUNDARIES: set<string> := {
    "\n", "\r", "\r\n", "\U{0b}", "\U{0c}", "\U{1c}", "\U{1d}", "\U{1e}", "\U{85}", "\U{2028}", "\U{2029}"
  }

  /** Every boundary ends a line; a carriage return takes the newline after it with it. */
  lemma SplitAtBoundary(line: string, boundary: string, rest: string)
    requires NoBreak(line) && boundary in BOUNDARIES
    requires boundary == "\r" && rest != "" ==> rest[0] != '\n'
    ensures SplitLines(line + boundary + rest) == [line] + SplitLines(rest)
  {
    hide SplitLines, NoBreak;
    if boundary == "\r\n" {
      SplitAtBoth(line, rest);
    } else {
      assert boundary == [boundary[0]] && IsBreak(boundary[0]);
      assert boundary[0] == '\r' ==> boundary == "\r";
      hide BOUNDARIES;
      SplitAtOne(line, boundary[0], rest);
    }
  }

  lemma SplitAtOne(line: string, c: char, rest: string)
    requires NoBreak(line) && IsBreak(c) && (c == '\r' && rest != "" ==> rest[0] != '\n')
    ensures SplitLines(line + [c] + rest) == [line] + SplitLines(rest)
  {
    var s, n := line + [c] + rest, |line|;
    assert s == line + ([c] + rest);
    LineLengthIs(line, [c] + rest);
    assert s[..n] == line && s[n + 1..] == rest && s[n] == c;
    assert rest != "" ==> s[n + 1] == rest[0];
  }

  lemma SplitAtBoth(line: string, rest: string)
    requires NoBreak(line)
    ensures SplitLines(line + "\r\n" + rest) == [line] + SplitLines(rest)
  {
    var s, n := line + "\r\n" + rest, |line|;
    assert s == line + ("\r\n" + rest);
    LineLengthIs(line, "\r\n" + rest);
    assert s[..n] == line && s[n + 2..] == rest && s[n] == '\r' && s[n + 1] == '\n';
  }

  lemma SplitOneLine(line: string)
    requires NoBreak(line)
    ensures SplitLines(line) == if line == "" then [] else [line]
  {
    LineLengthIs(line, "");
    assert line + "" == line;
  }

  lemma DropLater(lines: seq<string>)
    requires |lines| > 1
    ensures DropLastEmpty(lines) == [lines[0]] + DropLastEmpty(lines[1..])
  {
  }

  /** Lines joined by newlines and split again are the same lines, but for an empty one at the end. */
  lemma {:induction false} SplitJoin(lines: seq<string>)
    requires forall i | 0 <= i < |lines| :: NoBreak(lines[i])
    ensures SplitLines(Join("\n", lines)) == DropLastEmpty(lines)
  {
    if |lines| == 1 {
      SplitOneLine(lines[0]);
    } else if |lines| > 1 {
      hide SplitLines, DropLastEmpty;
      SplitJoin(lines[1..]);
      SplitFirstLine(lines[0], Join("\n", lines[1..]));
      DropLater(lines);
    }
  }
}
