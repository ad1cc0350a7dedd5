/**
 * `quoteShellArgument` and `formatCopyableCommand` of scripts/publish-npm-baseline.ts,
 * and as their inverse the shell's own reading of a command line: token recognition
 * and quoting by sections 2.2 and 2.3, reserved words by section 2.4 and assignment
 * words by section 2.9.1 of the POSIX.1-2017 Shell Command Language. Whatever would
 * need expansion, an operator or a second line is outside the fragment and reads as `None`.
 */
module ShellQuoting {
  import opened Basics
  import opened Texts

  // ---------------------------------------------------------------------------
  // The printer
  // ---------------------------------------------------------------------------

  predicate IsSafeChar(c: char) {
    IsWordChar(c) || c == '.' || c == '/' || c == ':' || c == '@' || c == '=' || c == '+' || c == '-'
  }

  predicate AllSafe(s: string) {
    forall c | c in s :: IsSafeChar(c)
  }

  /** `value.replaceAll("'", "'\"'\"'")`. */
  function EscapeQuotes(value: string): string {
    if value == "" then ""
    else (if value[0] == '\'' then "'\"'\"'" else [value[0]]) + EscapeQuotes(value[1..])
  }

  function QuoteShellArgument(value: string): string {
    if value != "" && AllSafe(value) then value else "'" + EscapeQuotes(value) + "'"
  }

  function FormatCopyableCommand(command: string, args: seq<string>): string
    decreases |args|
  {
    if args == [] then QuoteShellArgument(command)
    else QuoteShellArgument(command) + " " + FormatCopyableCommand(args[0], args[1..])
  }

  // ---------------------------------------------------------------------------
  // The shell
  // ---------------------------------------------------------------------------

  /** A token as written, and its value after quote removal. */
  datatype Token = Token(raw: string, value: string)

  datatype Mode = Plain | Single | Double

  function Extend(current: Option<Token>, raw: string, value: string): Option<Token> {
    match current
    case None => Some(Token(raw, value))
    case Some(t) => Some(Token(t.raw + raw, t.value + value))
  }

  function Close(current: Option<Token>, done: seq<Token>): seq<Token> {
    if current.Some? then done + [current.value] else done
  }

  /** Characters with a meaning of their own when unquoted. */
  predicate IsSpecial(c: char) {
    c in "|&;<>()$`*?[~\n"
  }

  /** The characters a backslash keeps its meaning before inside double quotes. */
  predicate IsDoubleQuoteEscape(c: char) {
    c in "$`\"\\"
  }

  function Tokenize(s: string, mode: Mode, current: Option<Token>, done: seq<Token>): Option<seq<Token>>
    decreases |s|
  {
    if s == "" then (if mode.Plain? then Some(Close(current, done)) else None)
    else
      var c := s[0];
      match mode
      case Plain =>
        if c == ' ' || c == '\t' then Tokenize(s[1..], Plain, None, Close(current, done))
        else if c == '\'' then Tokenize(s[1..], Single, Extend(current, "'", ""), done)
        else if c == '"' then Tokenize(s[1..], Double, Extend(current, "\"", ""), done)
        else if c == '\\' then
          if |s| == 1 then None
          else if s[1] == '\n' then Tokenize(s[2..], Plain, current, done)
          else Tokenize(s[2..], Plain, Extend(current, s[..2], [s[1]]), done)
        else if IsSpecial(c) || (c == '#' && current.None?) then None
        else Tokenize(s[1..], Plain, Extend(current, [c], [c]), done)
      case Single =>
        if c == '\'' then Tokenize(s[1..], Plain, Extend(current, "'", ""), done)
        else Tokenize(s[1..], Single, Extend(current, [c], [c]), done)
      case Double =>
        if c == '"' then Tokenize(s[1..], Plain, Extend(current, "\"", ""), done)
        else if c == '$' || c == '`' then None
        else if c == '\\' && |s| > 1 && s[1] == '\n' then Tokenize(s[2..], Double, current, done)
        else if c == '\\' && |s| > 1 && IsDoubleQuoteEscape(s[1]) then
          Tokenize(s[2..], Double, Extend(current, s[..2], [s[1]]), done)
        else Tokenize(s[1..], Double, Extend(current, [c], [c]), done)
  }

  function Values(tokens: seq<Token>): seq<string> {
    seq(|tokens|, i requires 0 <= i < |tokens| => tokens[i].value)
  }

  /** A name in the sense of section 3.235: letters, digits and underscores, no leading digit. */
  predicate IsName(s: string) {
    s != "" && !('0' <= s[0] <= '9') && forall c | c in s :: IsWordChar(c)
  }

  predicate IsAssignmentWord(raw: string) {
    exists i | 0 <= i < |raw| :: raw[i] == '=' && IsName(raw[..i])
  }

  const RESERVED_WORDS: set<string> := {
    "!", "{", "}", "case", "do", "done", "elif", "else", "esac", "fi", "for", "if", "in", "then", "until", "while"
  }

  /** Assignments in front, then the command word and its arguments. */
  datatype SimpleCommand = SimpleCommand(assignments: seq<Token>, words: seq<string>)

  function TakeAssignments(tokens: seq<Token>): (seq<Token>, seq<Token>) {
    if tokens == [] || !IsAssignmentWord(tokens[0].raw) then ([], tokens)
    else
      var (more, rest) := TakeAssignments(tokens[1..]);
      ([tokens[0]] + more, rest)
  }

  /** How the shell reads a one-line simple command. */
  function ReadCommand(line: string): Option<SimpleCommand> {
    match Tokenize(line, Plain, None, [])
    case None => None
    case Some(tokens) =>
      if tokens == [] || tokens[0].raw in RESERVED_WORDS then None
      else
        var (assignments, rest) := TakeAssignments(tokens);
        Some(SimpleCommand(assignments, Values(rest)))
  }

  // ---------------------------------------------------------------------------
  // Round trip
  // ---------------------------------------------------------------------------

  lemma {:induction false} SafeIsOneToken(v: string, rest: string, current: Option<Token>, done: seq<Token>)
    requires v != "" && AllSafe(v)
    ensures Tokenize(v + rest, Plain, current, done) == Tokenize(rest, Plain, Extend(current, v, v), done)
  {
    assert IsSafeChar(v[0]) && !IsSpecial(v[0]);
    assert (v + rest)[1..] == v[1..] + rest;
    if |v| > 1 {
      SafeIsOneToken(v[1..], rest, Extend(current, [v[0]], [v[0]]), done);
      ExtendTwice(current, [v[0]], [v[0]], v[1..], v[1..]);
      assert [v[0]] + v[1..] == v;
    } else {
      assert v == [v[0]] && v[1..] + rest == rest;
    }
  }

  lemma ExtendTwice(current: Option<Token>, r1: string, v1: string, r2: string, v2: string)
    ensures Extend(Extend(current, r1, v1), r2, v2) == Extend(current, r1 + r2, v1 + v2)
  {
    if current.Some? {
      assert current.value.raw + (r1 + r2) == current.value.raw + r1 + r2;
      assert current.value.value + (v1 + v2) == current.value.value + v1 + v2;
    }
  }

  /** Inside single quotes the escaped text reads back as the text, up to the closing quote. */
  lemma {:induction false} QuotedBody(v: string, rest: string, current: Option<Token>, done: seq<Token>)
    ensures Tokenize(EscapeQuotes(v) + "'" + rest, Single, current, done)
         == Tokenize(rest, Plain, Extend(current, EscapeQuotes(v) + "'", v), done)
    decreases |v|
  {
    if v == "" {
      assert (EscapeQuotes(v) + "'" + rest)[1..] == rest;
      assert EscapeQuotes(v) + "'" == "'";
    } else {
      var tail := EscapeQuotes(v[1..]) + "'" + rest;
      var head := if v[0] == '\'' then "'\"'\"'" else [v[0]];
      assert EscapeQuotes(v) + "'" + rest == head + tail;
      QuotedBody(v[1..], rest, Extend(current, head, [v[0]]), done);
      ExtendTwice(current, head, [v[0]], EscapeQuotes(v[1..]) + "'", v[1..]);
      assert head + (EscapeQuotes(v[1..]) + "'") == EscapeQuotes(v) + "'";
      assert [v[0]] + v[1..] == v;
      if v[0] == '\'' {
        QuoteInQuotes(tail, current, done);
      } else {
        assert (head + tail)[1..] == tail;
      }
    }
  }

  /** Leave single quotes, one double-quoted single quote, back into single quotes. */
  lemma QuoteInQuotes(tail: string, current: Option<Token>, done: seq<Token>)
    ensures Tokenize("'\"'\"'" + tail, Single, current, done)
         == Tokenize(tail, Single, Extend(current, "'\"'\"'", "'"), done)
  {
    var s := "'\"'\"'" + tail;
    var c1 := Extend(current, "'", "");
    var c2 := Extend(c1, "\"", "");
    var c3 := Extend(c2, "'", "'");
    var c4 := Extend(c3, "\"", "");
    var c5 := Extend(c4, "'", "");
    assert Tokenize(s, Single, current, done) == Tokenize(s[1..], Plain, c1, done);
    assert s[1..][1..] == s[2..] && s[2..][1..] == s[3..] && s[3..][1..] == s[4..] && s[4..][1..] == tail;
    assert Tokenize(s[1..], Plain, c1, done) == Tokenize(s[2..], Double, c2, done);
    assert Tokenize(s[2..], Double, c2, done) == Tokenize(s[3..], Double, c3, done);
    assert Tokenize(s[3..], Double, c3, done) == Tokenize(s[4..], Plain, c4, done);
    assert Tokenize(s[4..], Plain, c4, done) == Tokenize(tail, Single, c5, done);
    assert "" + "" == "" && "" + "'" == "'" && "'" + "" == "'";
    assert "'" + "\"" == "'\"" && "'\"" + "'" == "'\"'" && "'\"'" + "\"" == "'\"'\"" && "'\"'\"" + "'" == "'\"'\"'";
    ExtendTwice(current, "'", "", "\"", "");
    ExtendTwice(current, "'\"", "", "'", "'");
    ExtendTwice(current, "'\"'", "'", "\"", "");
    ExtendTwice(current, "'\"'\"", "'", "'", "");
  }

  /** A quoted argument reads as exactly one token with the argument as its value. */
  lemma QuotedIsOneToken(v: string, rest: string, done: seq<Token>)
    ensures Tokenize(QuoteShellArgument(v) + rest, Plain, None, done)
         == Tokenize(rest, Plain, Some(Token(QuoteShellArgument(v), v)), done)
  {
    if v != "" && AllSafe(v) {
      SafeIsOneToken(v, rest, None, done);
    } else {
      QuoteOpens(v, rest, done);
      QuotedBody(v, rest, Some(Token("'", "")), done);
      assert "'" + (EscapeQuotes(v) + "'") == QuoteShellArgument(v);
      assert "" + v == v;
    }
  }

  lemma QuoteOpens(v: string, rest: string, done: seq<Token>)
    requires !(v != "" && AllSafe(v))
    ensures Tokenize(QuoteShellArgument(v) + rest, Plain, None, done)
         == Tokenize(EscapeQuotes(v) + "'" + rest, Single, Some(Token("'", "")), done)
  {
    assert (QuoteShellArgument(v) + rest)[1..] == EscapeQuotes(v) + "'" + rest;
  }

  function Tokens(values: seq<string>): seq<Token> {
    seq(|values|, i requires 0 <= i < |values| => Token(QuoteShellArgument(values[i]), values[i]))
  }

  lemma {:induction false} CommandTokens(command: string, args: seq<string>, done: seq<Token>)
    ensures Tokenize(FormatCopyableCommand(command, args), Plain, None, done) == Some(done + Tokens([command] + args))
    decreases |args|
  {
    var token := Token(QuoteShellArgument(command), command);
    if args == [] {
      QuotedIsOneToken(command, "", done);
      assert QuoteShellArgument(command) + "" == QuoteShellArgument(command);
      assert Tokens([command] + args) == [token];
    } else {
      var others := FormatCopyableCommand(args[0], args[1..]);
      FormatFirst(command, args);
      QuotedIsOneToken(command, " " + others, done);
      assert (" " + others)[1..] == others;
      CommandTokens(args[0], args[1..], done + [token]);
      assert args == [args[0]] + args[1..];
      TokensFirst(command, args, done);
    }
  }

  lemma FormatFirst(command: string, args: seq<string>)
    requires args != []
    ensures FormatCopyableCommand(command, args)
         == QuoteShellArgument(command) + (" " + FormatCopyableCommand(args[0], args[1..]))
  {
  }

  lemma TokensFirst(command: string, args: seq<string>, done: seq<Token>)
    ensures done + Tokens([command] + args) == done + [Token(QuoteShellArgument(command), command)] + Tokens(args)
  {
    assert ([command] + args)[1..] == args;
  }

  /** Tokenizing a formatted command gives back the command and its arguments, for all strings. */
  lemma TokenRoundTrip(command: string, args: seq<string>)
    ensures var tokens := Tokenize(FormatCopyableCommand(command, args), Plain, None, []);
      tokens.Some? && Values(tokens.value) == [command] + args
  {
    CommandTokens(command, args, []);
    assert [] + Tokens([command] + args) == Tokens([command] + args);
    ValuesOfTokens([command] + args);
  }

  lemma ValuesOfTokens(values: seq<string>)
    ensures Values(Tokens(values)) == values
  {
  }

  /** The command word is printed bare and the shell would take it for something else. */
  predicate Misread(command: string) {
    AllSafe(command) && (command in RESERVED_WORDS || IsAssignmentWord(command))
  }

  lemma QuotedWordIsPlain(v: string)
    requires v == "" || !AllSafe(v)
    ensures QuoteShellArgument(v) !in RESERVED_WORDS && !IsAssignmentWord(QuoteShellArgument(v))
  {
    var raw := QuoteShellArgument(v);
    assert raw[0] == '\'';
    forall i | 0 <= i < |raw| && raw[i] == '=' ensures !IsName(raw[..i]) {
      if i > 0 {
        assert raw[..i][0] == '\'' && raw[..i][0] in raw[..i];
      }
    }
    forall w | w in RESERVED_WORDS ensures w[0] != '\'' {
    }
  }

  /** The shell runs exactly this command with exactly these arguments, unless and only
      unless the command word is an unquoted assignment or reserved word. */
  lemma CommandRoundTripExactly(command: string, args: seq<string>)
    ensures ReadCommand(FormatCopyableCommand(command, args)) == Some(SimpleCommand([], [command] + args))
       <==> !Misread(command)
  {
    CommandTokens(command, args, []);
    var tokens := Tokens([command] + args);
    assert [] + tokens == tokens;
    assert tokens[0] == Token(QuoteShellArgument(command), command);
    assert Values(tokens) == [command] + args;
    if command == "" || !AllSafe(command) {
      QuotedWordIsPlain(command);
    }
  }

  // ---------------------------------------------------------------------------
  // How a command is printed
  // ---------------------------------------------------------------------------

  const UPPER := "ABCDEFGHIJKLMNOPQRSTUVWXYZ"
  const LOWER := "abcdefghijklmnopqrstuvwxyz"
  const FIGURES := "0123456789"
  const MARKS := "_./:@=+-"

  /** The characters that need no quotes. */
  predicate Harmless(c: char) {
    c in UPPER || c in LOWER || c in FIGURES || c in MARKS
  }

  /** The letters follow each other without a gap. */
  predicate Runs(letters: string) {
    forall i | 0 < i < |letters| :: letters[i] as int == letters[i - 1] as int + 1
  }

  lemma {:induction false} RunsOn(letters: string, i: nat)
    requires Runs(letters) && i < |letters|
    ensures letters[i] as int == letters[0] as int + i
  {
    if i > 0 { RunsOn(letters, i - 1); }
  }

  lemma Spans(letters: string, c: char)
    requires letters != "" && Runs(letters)
    ensures c in letters <==> letters[0] <= c <= letters[|letters| - 1]
  {
    forall i | 0 <= i < |letters| ensures letters[i] as int == letters[0] as int + i { RunsOn(letters, i); }
    if letters[0] <= c <= letters[|letters| - 1] {
      assert letters[c as int - letters[0] as int] == c;
    }
  }

  lemma Marks(c: char)
    ensures c in MARKS <==> c == '_' || c == '.' || c == '/' || c == ':' || c == '@' || c == '=' || c == '+' || c == '-'
  {
    assert MARKS[0] == '_' && MARKS[1] == '.' && MARKS[2] == '/' && MARKS[3] == ':';
    assert MARKS[4] == '@' && MARKS[5] == '=' && MARKS[6] == '+' && MARKS[7] == '-';
  }

  lemma InUpper(c: char)
    ensures c in UPPER <==> 'A' <= c <= 'Z'
  {
    Spans(UPPER, c);
  }

  lemma InLower(c: char)
    ensures c in LOWER <==> 'a' <= c <= 'z'
  {
    Spans(LOWER, c);
  }

  lemma InFigures(c: char)
    ensures c in FIGURES <==> '0' <= c <= '9'
  {
    Spans(FIGURES, c);
  }

  lemma SafeCharExactly(c: char)
    ensures IsSafeChar(c) <==> Harmless(c)
  {
    InUpper(c);
    InLower(c);
    InFigures(c);
    Marks(c);
  }

  /** An argument is printed as it is exactly when it is not empty and has only these characters. */
  lemma PrintedBareExactly(value: string)
    ensures QuoteShellArgument(value) == value <==> value != "" && forall c | c in value :: Harmless(c)
  {
    forall c ensures IsSafeChar(c) <==> Harmless(c) { SafeCharExactly(c); }
    if !(value != "" && AllSafe(value)) { EscapeIsLonger(value); }
  }

  lemma {:induction false} EscapeIsLonger(value: string)
    ensures |EscapeQuotes(value)| >= |value|
    ensures '\'' !in value ==> EscapeQuotes(value) == value
  {
    if value != "" {
      EscapeIsLonger(value[1..]);
      assert value == [value[0]] + value[1..];
    }
  }

  /** Otherwise it stands between single quotes, unchanged if it has none itself. */
  lemma PrintedQuoted(value: string)
    requires value == "" || exists c :: c in value && !Harmless(c)
    ensures '\'' !in value ==> QuoteShellArgument(value) == "'" + value + "'"
  {
    forall c ensures IsSafeChar(c) <==> Harmless(c) { SafeCharExactly(c); }
    EscapeIsLonger(value);
  }

  function Printed(values: seq<string>): (printed: seq<string>)
    ensures |printed| == |values|
  {
    seq(|values|, i requires 0 <= i < |values| => QuoteShellArgument(values[i]))
  }

  /** The words stand one behind the other with single spaces. */
  lemma {:induction false} CommandIsJoined(command: string, args: seq<string>)
    ensures FormatCopyableCommand(command, args) == JoinWith(Printed([command] + args), " ")
    decreases |args|
  {
    if args != [] {
      CommandIsJoined(args[0], args[1..]);
      assert [args[0]] + args[1..] == args;
      assert Printed([command] + args)[1..] == Printed(args);
    }
  }
}
