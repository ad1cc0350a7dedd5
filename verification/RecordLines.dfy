/**
 * The pairing record of scripts/translation-pairing-record.ts, told from its lines: exactly which
 * texts parse, and what they give.
 */
module RecordLines {
  import opened Basics
  import opened Texts
  import opened PairingRecord

  /** An empty line, or a comment. */
  predicate IsIdle(line: string) {
    line == "" || line[0] == '#'
  }

  /** A document's name that a record can hold. */
  predicate CanBeKey(name: string) {
    && |name| >= 4 && name[|name| - 3..] == ".md" && forall c | c in name :: c != ':' && c != '#'
  }

  predicate IsSha(text: string) {
    |text| == 40 && forall c | c in text :: c in "0123456789abcdef"
  }

  /** The name, a colon, a space and the hash. */
  predicate Tells(line: string, name: string, hash: string) {
    CanBeKey(name) && IsSha(hash) && line == name + (": " + hash)
  }

  lemma IdleIsSkipped(line: string)
    ensures Skipped(line) <==> IsIdle(line)
  {
    if line != "" { assert line[..1] == [line[0]]; }
  }

  lemma TellsIsMatch(line: string, name: string, hash: string)
    ensures Tells(line, name, hash) <==> Match(line) == Some(Entry(name, hash))
  {
    MatchExactly(line, name, hash);
    assert name + (": " + hash) == name + ": " + hash;
    assert IsSha(hash) <==> IsHash(hash) by {
      assert forall c :: c in "0123456789abcdef" <==> '0' <= c <= '9' || 'a' <= c <= 'f' by {
        HexDigits();
      }
    }
  }

  lemma HexDigits()
    ensures forall c :: c in "0123456789abcdef" <==> '0' <= c <= '9' || 'a' <= c <= 'f'
  {
    var digits := "0123456789abcdef";
    forall c | '0' <= c <= '9' || 'a' <= c <= 'f' ensures c in digits {
      assert digits[if c <= '9' then c as int - '0' as int else c as int - 'a' as int + 10] == c;
    }
  }

  // ---------------------------------------------------------------------------
  // Paths and names
  // ---------------------------------------------------------------------------

  /** The pair's paths have one stem. */
  predicate HaveStem(paths: Paths, stem: string) {
    paths.source == stem + ".md" && paths.zh == stem + ".zh.md" && paths.meta == stem + ".i18n.yaml"
  }

  /** Exactly the English documents have a pair of paths. */
  lemma PairPathsExactly(source: string, paths: Paths)
    ensures PairPaths(source) == Some(paths) <==>
      paths.source == source && exists stem :: HaveStem(paths, stem) && !EndsWith(stem, ".zh")
  {
    if EndsWith(source, ".md") {
      var stem := source[..|source| - 3];
      StemOf(source, ".md");
      SameSuffix(stem, ".md", ".zh");
      assert ".zh" + ".md" == ".zh.md";
      if PairPaths(source) == Some(paths) { assert HaveStem(paths, stem); }
      forall other | source == other + ".md" ensures other == stem {
        assert source[..|source| - 3] == other;
      }
    } else {
      forall stem ensures source != stem + ".md" {
        SwapBack(stem, ".md", "");
      }
    }
  }

  /** The name is what stands behind the last slash. */
  ghost predicate IsNameOf(path: string, name: string) {
    '/' !in name && (path == name || exists folder :: path == folder + "/" + name)
  }

  lemma {:induction false} NameExactly(path: string, name: string)
    ensures Basename(path) == name <==> IsNameOf(path, name)
  {
    NameIsName(path);
    forall other | IsNameOf(path, other) ensures Basename(path) == other {
      var folder :| path == folder + other && (folder == "" || folder[|folder| - 1] == '/') by {
        NameHasFolder(path, other);
      }
      BasenameAppend(folder, other);
      assert "" + other == other;
    }
  }

  lemma NameHasFolder(path: string, name: string)
    requires IsNameOf(path, name)
    ensures exists folder :: path == folder + name && (folder == "" || folder[|folder| - 1] == '/')
  {
    if path == name {
      assert path == "" + name;
    } else {
      var folder :| path == folder + "/" + name;
      assert path == (folder + "/") + name && (folder + "/")[|folder|] == '/';
    }
  }

  lemma {:induction false} NameIsName(path: string)
    ensures IsNameOf(path, Basename(path))
  {
    if path != "" {
      var front, last := path[..|path| - 1], path[|path| - 1];
      assert path == front + [last];
      if last == '/' {
        assert path == front + "/" + "";
      } else {
        NameIsName(front);
        if front != Basename(front) {
          var folder :| front == folder + "/" + Basename(front);
          assert path == folder + "/" + (Basename(front) + [last]);
        }
      }
    }
  }

  // ---------------------------------------------------------------------------
  // Two lines among idle ones
  // ---------------------------------------------------------------------------

  ghost predicate AllIdle(lines: Lines) {
    forall line | line in lines :: IsIdle(line)
  }

  /** This line and no other is not idle. */
  ghost predicate OnlyLine(lines: Lines, i: nat, line: string) {
    && i < |lines| && lines[i] == line && !IsIdle(line)
    && forall k | 0 <= k < |lines| && k != i :: IsIdle(lines[k])
  }

  ghost predicate OnlyLines(lines: Lines, i: nat, j: nat, first: string, second: string) {
    && i < j < |lines| && lines[i] == first && lines[j] == second && !IsIdle(first) && !IsIdle(second)
    && forall k | 0 <= k < |lines| && k != i && k != j :: IsIdle(lines[k])
  }

  lemma {:induction false} KeptNone(lines: Lines)
    ensures Kept(lines) == [] <==> AllIdle(lines)
  {
    if lines != [] {
      IdleIsSkipped(lines[0]);
      KeptNone(lines[1..]);
      assert lines == [lines[0]] + lines[1..];
    }
  }

  lemma {:induction false} KeptOneLine(lines: Lines, line: string)
    ensures Kept(lines) == [line] <==> exists i: nat :: OnlyLine(lines, i, line)
  {
    if lines != [] {
      var rest := lines[1..];
      IdleIsSkipped(lines[0]);
      KeptOneLine(rest, line);
      KeptNone(rest);
      if Kept(lines) == [line] {
        if IsIdle(lines[0]) {
          var i: nat :| OnlyLine(rest, i, line);
          assert OnlyLine(lines, i + 1, line);
        } else {
          assert OnlyLine(lines, 0, line);
        }
      }
      if i: nat :| OnlyLine(lines, i, line) {
        OnlyLineBehind(lines, i, line);
      }
    }
  }

  lemma OnlyLineBehind(lines: Lines, i: nat, line: string)
    requires lines != [] && OnlyLine(lines, i, line)
    ensures if i == 0 then AllIdle(lines[1..]) else IsIdle(lines[0]) && OnlyLine(lines[1..], i - 1, line)
  {
    assert forall k | 0 <= k < |lines| - 1 :: lines[1..][k] == lines[k + 1];
  }

  lemma {:induction false} KeptTwoLines(lines: Lines, first: string, second: string)
    ensures Kept(lines) == [first, second] <==> exists i: nat, j: nat :: OnlyLines(lines, i, j, first, second)
  {
    if lines != [] {
      var rest := lines[1..];
      IdleIsSkipped(lines[0]);
      KeptTwoLines(rest, first, second);
      KeptOneLine(rest, second);
      if Kept(lines) == [first, second] {
        if IsIdle(lines[0]) {
          var i: nat, j: nat :| OnlyLines(rest, i, j, first, second);
          assert OnlyLines(lines, i + 1, j + 1, first, second);
        } else {
          assert Kept(rest) == [first, second][1..] == [second] && lines[0] == Kept(lines)[0] == first;
          var j: nat :| OnlyLine(rest, j, second);
          assert OnlyLines(lines, 0, j + 1, first, second);
        }
      }
      if i: nat, j: nat :| OnlyLines(lines, i, j, first, second) {
        OnlyLinesBehind(lines, i, j, first, second);
      }
    }
  }

  lemma OnlyLinesBehind(lines: Lines, i: nat, j: nat, first: string, second: string)
    requires lines != [] && OnlyLines(lines, i, j, first, second)
    ensures if i == 0 then lines[0] == first && OnlyLine(lines[1..], j - 1, second)
            else IsIdle(lines[0]) && OnlyLines(lines[1..], i - 1, j - 1, first, second)
  {
    assert forall k | 0 <= k < |lines| - 1 :: lines[1..][k] == lines[k + 1];
  }

  // ---------------------------------------------------------------------------
  // What parses
  // ---------------------------------------------------------------------------

  /** The lines tell the two names the record's hashes, in this order. */
  predicate Pair(a: string, b: string, source: string, zh: string, record: Record) {
    Tells(a, source, record.sourceHash) && Tells(b, zh, record.zhHash)
  }

  /** What two lines give. */
  ghost predicate Give(a: string, b: string, paths: Paths, record: Record) {
    match ParseLines([a, b], map[])
    case None => false
    case Some(hashes) => Expected(hashes, paths) == Some(record)
  }

  lemma TwoLinesParse(a: string, b: string, paths: Paths, record: Record)
    requires !IsIdle(a) && !IsIdle(b) && Basename(paths.source) != Basename(paths.zh)
    ensures var source, zh := Basename(paths.source), Basename(paths.zh);
      Give(a, b, paths, record) <==> Pair(a, b, source, zh, record) || Pair(b, a, source, zh, record)
  {
    var source, zh := Basename(paths.source), Basename(paths.zh);
    IdleIsSkipped(a);
    IdleIsSkipped(b);
    TellsIsMatch(a, source, record.sourceHash);
    TellsIsMatch(b, zh, record.zhHash);
    TellsIsMatch(b, source, record.sourceHash);
    TellsIsMatch(a, zh, record.zhHash);
    TwoMatches(a, b);
    if Match(a).Some? && Match(b).Some? && Match(a).value.key != Match(b).value.key {
      TwoHashes(Match(a).value, Match(b).value, paths, record);
    }
  }

  lemma TwoMatches(a: string, b: string)
    requires !Skipped(a) && !Skipped(b)
    ensures ParseLines([a, b], map[]) ==
      if Match(a).Some? && Match(b).Some? && Match(a).value.key != Match(b).value.key then
        Some(map[Match(a).value.key := Match(a).value.hash, Match(b).value.key := Match(b).value.hash])
      else None
  {
    assert [a, b][1..] == [b] && [b][1..] == [];
    if Match(a).Some? {
      var x, hashes := Match(a).value, map[Match(a).value.key := Match(a).value.hash];
      assert ParseLines([a, b], map[]) == ParseLines([b], hashes);
    }
  }

  predicate Matched(x: Entry, y: Entry, source: string, zh: string, record: Record) {
    x == Entry(source, record.sourceHash) && y == Entry(zh, record.zhHash)
  }

  lemma TwoHashes(x: Entry, y: Entry, paths: Paths, record: Record)
    requires x.key != y.key && Basename(paths.source) != Basename(paths.zh)
    ensures var source, zh := Basename(paths.source), Basename(paths.zh);
      (Expected(map[x.key := x.hash, y.key := y.hash], paths) == Some(record))
      == (Matched(x, y, source, zh, record) || Matched(y, x, source, zh, record))
  {
    var hashes, source, zh := map[x.key := x.hash, y.key := y.hash], Basename(paths.source), Basename(paths.zh);
    assert hashes.Keys == {x.key, y.key} && |hashes.Keys| == 2;
    assert source in hashes <==> source == x.key || source == y.key;
    assert zh in hashes <==> zh == x.key || zh == y.key;
  }

  /** The text's lines are these two, in either order, and idle ones. */
  ghost predicate Holds(lines: Lines, a: string, b: string) {
    (exists i: nat, j: nat :: OnlyLines(lines, i, j, a, b)) || (exists i: nat, j: nat :: OnlyLines(lines, i, j, b, a))
  }

  lemma HoldsIsKept(lines: Lines, a: string, b: string)
    ensures Holds(lines, a, b) <==> Kept(lines) == [a, b] || Kept(lines) == [b, a]
    ensures Holds(lines, a, b) ==> !IsIdle(a) && !IsIdle(b)
  {
    KeptTwoLines(lines, a, b);
    KeptTwoLines(lines, b, a);
  }

  lemma {:induction false} KeptIsNotIdle(lines: Lines)
    ensures forall line | line in Kept(lines) :: !IsIdle(line)
  {
    if lines != [] {
      IdleIsSkipped(lines[0]);
      KeptIsNotIdle(lines[1..]);
    }
  }

  lemma PairOfNames(source: string)
    requires PairPaths(source).Some?
    ensures Basename(PairPaths(source).value.source) != Basename(PairPaths(source).value.zh)
  {
    PairNames(source);
    var stem := Basename(source[..|source| - 3]);
    assert |stem + ".md"| != |stem + ".zh.md"|;
  }

  /** The text has one line for each of the two names, and is otherwise idle. */
  ghost predicate TellsBoth(lines: Lines, source: string, zh: string, record: Record) {
    exists a, b :: Pair(a, b, source, zh, record) && Holds(lines, a, b)
  }

  lemma ParsedTellsBoth(content: string, paths: Paths, record: Record)
    requires Basename(paths.source) != Basename(paths.zh) && Parse(content, paths) == Some(record)
    ensures TellsBoth(Split(content), Basename(paths.source), Basename(paths.zh), record)
  {
    var lines := Split(content);
    ParseKept(lines, map[]);
    ParsedIsSound(content, paths);
    KeptIsNotIdle(lines);
    var x, y := Kept(lines)[0], Kept(lines)[1];
    assert Kept(lines) == [x, y];
    TwoLinesParse(x, y, paths, record);
    HoldsIsKept(lines, x, y);
    HoldsIsKept(lines, y, x);
    assert Give(x, y, paths, record);
  }

  lemma TellingBothParses(content: string, paths: Paths, record: Record)
    requires Basename(paths.source) != Basename(paths.zh)
    requires TellsBoth(Split(content), Basename(paths.source), Basename(paths.zh), record)
    ensures Parse(content, paths) == Some(record)
  {
    var lines := Split(content);
    var a, b :| Pair(a, b, Basename(paths.source), Basename(paths.zh), record) && Holds(lines, a, b);
    ParseKept(lines, map[]);
    HoldsIsKept(lines, a, b);
    TwoLinesParse(a, b, paths, record);
    TwoLinesParse(b, a, paths, record);
  }

  /** Exactly the texts parse that tell both names a hash, once each and in either order, and are
      otherwise empty lines and comments. */
  lemma ParsesExactly(content: string, source: string, record: Record)
    requires PairPaths(source).Some?
    ensures var paths := PairPaths(source).value;
      Parse(content, paths) == Some(record)
      <==> TellsBoth(Split(content), Basename(paths.source), Basename(paths.zh), record)
  {
    var paths := PairPaths(source).value;
    PairOfNames(source);
    if Parse(content, paths) == Some(record) { ParsedTellsBoth(content, paths, record); }
    if TellsBoth(Split(content), Basename(paths.source), Basename(paths.zh), record) {
      TellingBothParses(content, paths, record);
    }
  }

  /** A rendered record has the comments, the command with the path, and a line for each document; the
      last line ends in a line feed. */
  lemma RenderedExactly(header: Header, paths: Paths, record: Record)
    requires OneLine(paths.source) && OneLine(paths.zh) && IsHash(record.sourceHash) && IsHash(record.zhHash)
    ensures Split(Render(header, paths, record)) == header.comments + [
        header.command + paths.source,
        Basename(paths.source) + ": " + record.sourceHash,
        Basename(paths.zh) + ": " + record.zhHash,
        ""]
  {
    var lines := header.comments + [header.command + paths.source, EntryLine(Basename(paths.source), record.sourceHash),
                                    EntryLine(Basename(paths.zh), record.zhHash), ""];
    assert header.comments + ([header.command + paths.source] + (EntryLines(paths, record) + [""])) == lines;
    NameHasNoBreak(paths.source);
    NameHasNoBreak(paths.zh);
    assert OneLines(lines) by {
      assert forall comment | comment in header.comments :: IsComment(comment);
    }
    SplitJoined(lines);
  }

  lemma {:induction false} NameHasNoBreak(path: string)
    requires OneLine(path)
    ensures OneLine(Basename(path))
  {
    if path != "" { NameHasNoBreak(path[..|path| - 1]); }
  }

  /** The path's further lines are empty or comments. */
  lemma ContinuesExactly(path: string)
    ensures Continues(path) <==> AllIdle(Split(path)[1..])
  {
    KeptNone(Split(path)[1..]);
  }
}
