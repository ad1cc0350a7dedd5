/** Strings as the scripts handle them: white space, trimming, joining and splitting lines. */
module Texts {

  /** The characters that JavaScript's `\s` matches. */
  predicate IsSpace(c: char) {
    || '\t' <= c <= '\r' || c == ' ' || c == '\U{A0}' || c == '\U{1680}' || '\U{2000}' <= c <= '\U{200A}'
    || c == '\U{2028}' || c == '\U{2029}' || c == '\U{202F}' || c == '\U{205F}' || c == '\U{3000}' || c == '\U{FEFF}'
  }

  /** White space and line terminators by sections 12.2 and 12.3 of ECMA-262. */
  const SPACES := "\t\n\U{B}\U{C}\r \U{A0}\U{1680}\U{2000}\U{2001}\U{2002}\U{2003}\U{2004}\U{2005}\U{2006}"
    + "\U{2007}\U{2008}\U{2009}\U{200A}\U{2028}\U{2029}\U{202F}\U{205F}\U{3000}\U{FEFF}"

  lemma SpacesAreListed(c: char)
    ensures c in SPACES ==> IsSpace(c)
    ensures IsSpace(c) ==> exists i :: 0 <= i < 25 && SPACES[i] == c
  {
    assert |SPACES| == 25;
    if '\t' <= c <= '\r' {
      assert SPACES[c as int - 9] == c;
    } else if '\U{2000}' <= c <= '\U{200A}' {
      assert SPACES[c as int - 0x2000 + 8] == c;
    } else if IsSpace(c) {
      assert SPACES[5] == ' ' && SPACES[6] == '\U{A0}' && SPACES[7] == '\U{1680}' && SPACES[19] == '\U{2028}';
      assert SPACES[20] == '\U{2029}' && SPACES[21] == '\U{202F}' && SPACES[22] == '\U{205F}';
      assert SPACES[23] == '\U{3000}' && SPACES[24] == '\U{FEFF}';
    }
  }

  /** The characters that `\w` matches. */
  predicate IsWordChar(c: char) {
    'a' <= c <= 'z' || 'A' <= c <= 'Z' || '0' <= c <= '9' || c == '_'
  }

  function TrimStart(s: string): string {
    if s != "" && IsSpace(s[0]) then TrimStart(s[1..]) else s
  }

  function TrimEnd(s: string): string {
    if s != "" && IsSpace(s[|s| - 1]) then TrimEnd(s[..|s| - 1]) else s
  }

  function Trim(s: string): string {
    TrimEnd(TrimStart(s))
  }

  predicate StartsWith(s: string, prefix: string) {
    |prefix| <= |s| && s[..|prefix|] == prefix
  }

  /** `join(separator)`. */
  function JoinWith(parts: seq<string>, separator: string): string {
    if parts == [] then ""
    else if |parts| == 1 then parts[0]
    else parts[0] + separator + JoinWith(parts[1..], separator)
  }

  type Lines = seq<string>

  predicate OneLine(line: string) {
    '\n' !in line
  }

  predicate OneLines(lines: Lines) {
    forall line | line in lines :: OneLine(line)
  }

  /** `split('\n')`. */
  function Split(s: string): (lines: Lines)
    ensures lines != []
  {
    if s == "" then [""]
    else
      var rest := Split(s[1..]);
      if s[0] == '\n' then [""] + rest else [[s[0]] + rest[0]] + rest[1..]
  }

  lemma {:induction false} SplitLine(line: string, rest: string)
    requires OneLine(line)
    ensures Split(line + "\n" + rest) == [line] + Split(rest)
  {
    var s := line + "\n" + rest;
    if line == "" {
      assert s[1..] == rest;
    } else {
      assert s[1..] == line[1..] + "\n" + rest;
      SplitLine(line[1..], rest);
      assert Split(s[1..]) == [line[1..]] + Split(rest);
      assert s[0] == line[0] && [line[0]] + line[1..] == line;
    }
  }

  lemma {:induction false} SplitOneLine(line: string)
    requires OneLine(line)
    ensures Split(line) == [line]
  {
    if line != "" {
      SplitOneLine(line[1..]);
      assert [line[0]] + line[1..] == line && line[0] in line;
    }
  }

  lemma {:induction false} SplitGivesLines(s: string)
    ensures OneLines(Split(s))
  {
    if s != "" {
      SplitGivesLines(s[1..]);
      var rest := Split(s[1..]);
      assert OneLine(rest[0]);
      assert s[0] != '\n' ==> OneLine([s[0]] + rest[0]);
    }
  }

  lemma SplitFirst(c: char, s: string)
    ensures Split([c] + s) == if c == '\n' then [""] + Split(s) else [[c] + Split(s)[0]] + Split(s)[1..]
  {
    assert ([c] + s)[1..] == s;
  }

  /** A line break splits whatever stands on either side. */
  lemma {:induction false} SplitAcross(a: string, b: string)
    ensures Split(a + "\n" + b) == Split(a) + Split(b)
  {
    if a == "" {
      assert a + "\n" + b == ['\n'] + b;
      SplitFirst('\n', b);
    } else {
      var c, more := a[0], a[1..];
      assert a == [c] + more && a + "\n" + b == [c] + (more + "\n" + b);
      SplitAcross(more, b);
      SplitFirst(c, more);
      SplitFirst(c, more + "\n" + b);
      LongerSplit(c, Split(more), Split(b));
    }
  }

  lemma LongerSplit(c: char, a: Lines, b: Lines)
    requires a != []
    ensures [""] + (a + b) == [""] + a + b
    ensures [[c] + (a + b)[0]] + (a + b)[1..] == [[c] + a[0]] + a[1..] + b
  {
    assert (a + b)[1..] == a[1..] + b;
  }

  /** Splitting takes apart what joining put together. */
  lemma {:induction false} SplitJoined(lines: Lines)
    requires lines != [] && OneLines(lines)
    ensures Split(JoinWith(lines, "\n")) == lines
  {
    SplitOneLine(lines[0]);
    if |lines| > 1 {
      SplitJoined(lines[1..]);
      SplitAcross(lines[0], JoinWith(lines[1..], "\n"));
    }
  }
}
