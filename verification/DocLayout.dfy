/**
 * The description that `parseJsDoc` of scripts/jsdoc.ts makes, line by line: a paragraph or an item
 * is one line of words, items of one list follow each other, and one empty line separates the rest.
 */
module DocLayout {
  import opened Basics
  import opened Texts
  import opened JsDoc

  // ---------------------------------------------------------------------------
  // How the lines are meant
  // ---------------------------------------------------------------------------

  predicate Blank(line: string) {
    forall c | c in line :: IsSpace(c)
  }

  predicate IsItem(line: string) {
    |line| >= 2 && line[0] == '-' && IsSpace(line[1])
  }

  /** The first line and those behind it up to a blank one or an item. */
  function Extent(lines: Lines): (n: nat)
    requires lines != []
    ensures 1 <= n <= |lines|
  {
    if |lines| == 1 || Blank(lines[1]) || IsItem(lines[1]) then 1 else 1 + Extent(lines[1..])
  }

  /** The words of the lines on one line. */
  function OnOneLine(lines: Lines): string {
    JoinWith(AllWords(lines), " ")
  }

  predicate HasText(lines: Lines) {
    exists line :: line in lines && !Blank(line)
  }

  /** What stands between a paragraph or item that starts with `first` and what follows: nothing
      between the items of a list, one empty line otherwise. */
  function Gap(first: string, rest: Lines): Lines {
    if !HasText(rest) then []
    else if IsItem(first) && !Blank(rest[0]) then []
    else [""]
  }

  /** The lines of the description, from the lines of the comment before its first tag. */
  function Laid(lines: Lines): Lines {
    if lines == [] then []
    else if Blank(lines[0]) then Laid(lines[1..])
    else
      var n := Extent(lines);
      [OnOneLine(lines[..n])] + Gap(lines[0], lines[n..]) + Laid(lines[n..])
  }

  /** The comment's lines before the first one whose text starts with an at sign. */
  ghost predicate IsProse(prose: Lines, lines: Lines) {
    && prose <= lines && (forall line | line in prose :: !HasTag(line))
    && (|prose| < |lines| ==> HasTag(lines[|prose|]))
  }

  ghost predicate HasTag(line: string) {
    exists k | 0 <= k < |line| :: line[k] == '@' && forall j | 0 <= j < k :: IsSpace(line[j])
  }

  // ---------------------------------------------------------------------------
  // Words on one line
  // ---------------------------------------------------------------------------

  predicate IsWord(word: string) {
    word != "" && forall c | c in word :: !IsSpace(c)
  }

  lemma {:induction false} WordsAreWords(s: string)
    ensures forall word | word in Words(s) :: IsWord(word)
  {
    if s != "" {
      var rest := Words(s[1..]);
      WordsAreWords(s[1..]);
      if !IsSpace(s[0]) {
        if |s| == 1 || IsSpace(s[1]) {
          assert IsWord([s[0]]);
        } else {
          assert rest[0] in rest && IsWord([s[0]] + rest[0]);
          assert forall word | word in rest[1..] :: word in rest;
        }
      }
    }
  }

  lemma {:induction false} AllWordsAreWords(parts: seq<string>)
    ensures forall word | word in AllWords(parts) :: IsWord(word)
  {
    if parts != [] {
      WordsAreWords(parts[0]);
      AllWordsAreWords(parts[1..]);
    }
  }

  function SpaceAtStart(s: string): string {
    if s != "" && IsSpace(s[0]) then " " else ""
  }

  function SpaceAtEnd(s: string): string {
    if s != "" && IsSpace(s[|s| - 1]) then " " else ""
  }

  /** Squeezing leaves the words with single spaces, and one at each end where there was any. */
  lemma {:induction false} SqueezedIsSpaced(s: string)
    ensures Words(s) != [] ==> Squeezed(s) == SpaceAtStart(s) + JoinWith(Words(s), " ") + SpaceAtEnd(s)
    ensures Words(s) == [] ==> Squeezed(s) == SpaceAtStart(s)
  {
    if s != "" {
      var t := s[1..];
      SqueezedIsSpaced(t);
      assert s == [s[0]] + t;
      WordsFirst(s[0], t);
      if t != "" { assert s[|s| - 1] == t[|t| - 1]; }
      if IsSpace(s[0]) {
        SpaceInFront(s, t);
      } else {
        LetterInFront(s, t);
      }
    }
  }

  lemma SpaceInFront(s: string, t: string)
    requires s != "" && IsSpace(s[0]) && t == s[1..] && Words(s) == Words(t)
    requires Words(t) != [] ==> Squeezed(t) == SpaceAtStart(t) + JoinWith(Words(t), " ") + SpaceAtEnd(t)
    requires Words(t) == [] ==> Squeezed(t) == SpaceAtStart(t)
    ensures Words(s) != [] ==> Squeezed(s) == SpaceAtStart(s) + JoinWith(Words(s), " ") + SpaceAtEnd(s)
    ensures Words(s) == [] ==> Squeezed(s) == SpaceAtStart(s)
  {
    if t != "" {
      assert s[|s| - 1] == t[|t| - 1];
      if !IsSpace(t[0]) {
        SpaceBefore(JoinWith(Words(t), " "), SpaceAtEnd(t));
      }
    }
  }

  lemma SpaceBefore(words: string, end: string)
    ensures " " + ("" + words + end) == " " + words + end
  {
  }

  lemma LetterInFront(s: string, t: string)
    requires s != "" && !IsSpace(s[0]) && t == s[1..]
    requires Words(t) != [] ==> Squeezed(t) == SpaceAtStart(t) + JoinWith(Words(t), " ") + SpaceAtEnd(t)
    requires Words(t) == [] ==> Squeezed(t) == SpaceAtStart(t)
    ensures Words(s) != [] && Squeezed(s) == SpaceAtStart(s) + JoinWith(Words(s), " ") + SpaceAtEnd(s)
  {
    assert s == [s[0]] + t;
    WordsFirst(s[0], t);
    var c, words := [s[0]], Words(t);
    if t == "" {
      assert JoinWith([c], " ") == c;
      assert "" + c + "" == c && c + "" == c;
    } else if IsSpace(t[0]) {
      assert s[|s| - 1] == t[|t| - 1];
      SpaceBehindLetter(c, t);
    } else {
      assert s[|s| - 1] == t[|t| - 1];
      JoinLonger(s[0], words, " ");
      var joined, end := JoinWith(words, " "), SpaceAtEnd(t);
      assert c + ("" + joined + end) == "" + (c + joined) + end;
    }
  }

  lemma SpaceBehindLetter(c: string, t: string)
    requires t != "" && IsSpace(t[0])
    requires Words(t) != [] ==> Squeezed(t) == SpaceAtStart(t) + JoinWith(Words(t), " ") + SpaceAtEnd(t)
    requires Words(t) == [] ==> Squeezed(t) == SpaceAtStart(t)
    ensures c + Squeezed(t) == "" + JoinWith([c] + Words(t), " ") + SpaceAtEnd(t)
  {
    if Words(t) == [] {
      NoWordsAllSpace(t);
      assert SpaceAtEnd(t) == " ";
      assert [c] + Words(t) == [c];
      Plainly(c, " ");
    } else {
      assert ([c] + Words(t))[1..] == Words(t);
      Spaced(c, JoinWith(Words(t), " "), SpaceAtEnd(t));
    }
  }

  lemma Plainly(c: string, end: string)
    ensures c + end == "" + c + end
  {
  }

  lemma Spaced(c: string, joined: string, end: string)
    ensures c + (" " + joined + end) == "" + (c + " " + joined) + end
  {
  }

  lemma {:induction false} NoWordsAllSpace(s: string)
    requires Words(s) == []
    ensures forall c | c in s :: IsSpace(c)
  {
    if s != "" { NoWordsAllSpace(s[1..]); }
  }

  lemma JoinLonger(c: char, words: seq<string>, separator: string)
    requires words != []
    ensures JoinWith([[c] + words[0]] + words[1..], separator) == [c] + JoinWith(words, separator)
  {
    var longer := [[c] + words[0]] + words[1..];
    assert longer[1..] == words[1..];
    if |words| > 1 {
      var rest := JoinWith(words[1..], separator);
      assert [c] + words[0] + separator + rest == [c] + (words[0] + separator + rest);
    }
  }

  lemma {:induction false} JoinedEnds(words: seq<string>)
    requires words != [] && forall word | word in words :: IsWord(word)
    ensures var line := JoinWith(words, " ");
      line != "" && !IsSpace(line[0]) && !IsSpace(line[|line| - 1]) && OneLine(line)
  {
    assert words[0] in words && words[0][0] in words[0] && words[0][|words[0]| - 1] in words[0];
    if |words| > 1 {
      assert forall word | word in words[1..] :: word in words;
      JoinedEnds(words[1..]);
      var rest := JoinWith(words[1..], " ");
      var line := words[0] + " " + rest;
      assert line[|line| - 1] == rest[|rest| - 1];
      assert OneLine(words[0]);
    }
  }

  lemma TrimDropsEnds(before: string, line: string, behind: string)
    requires line != "" && !IsSpace(line[0]) && !IsSpace(line[|line| - 1])
    requires before in {"", " "} && behind in {"", " "}
    ensures Trim(before + line + behind) == line
  {
    var s := line + behind;
    assert before + line + behind == before + s;
    assert TrimStart(s) == s;
    if before == " " {
      assert (" " + s)[1..] == s;
    } else {
      assert "" + s == s;
    }
    if behind == " " {
      assert s[|s| - 1] == ' ' && s[..|s| - 1] == line;
      assert TrimEnd(s) == TrimEnd(line) == line;
    } else {
      assert s == line;
    }
  }

  /** The parser's `join` puts the words on one line, with single spaces. */
  lemma JoinedIsOneLine(parts: Lines)
    ensures Joined(parts) == OnOneLine(parts)
  {
    var s := JoinWith(parts, " ");
    WordsOfJoin(parts, " ");
    SqueezedIsSpaced(s);
    if Words(s) == [] {
      assert Trim(Squeezed(s)) == "" by { assert Squeezed(s) == "" || Squeezed(s) == " "; }
    } else {
      WordsAreWords(s);
      JoinedEnds(Words(s));
      TrimDropsEnds(SpaceAtStart(s), JoinWith(Words(s), " "), SpaceAtEnd(s));
    }
  }

  // ---------------------------------------------------------------------------
  // The description's lines
  // ---------------------------------------------------------------------------

  lemma BlankIsTrimmed(line: string)
    ensures IsBlank(line) <==> Blank(line)
  {
    if Blank(line) {
      AllSpaceTrims(line);
    } else if IsBlank(line) {
      WordsOfBlank(line);
      NoWordsAllSpace(line);
    }
  }

  lemma {:induction false} AllSpaceTrims(s: string)
    requires forall c | c in s :: IsSpace(c)
    ensures TrimStart(s) == ""
  {
    if s != "" { AllSpaceTrims(s[1..]); }
  }

  /** The lines of blocks, one empty line between them. */
  function LinesOfBlocks(blocks: seq<string>): Lines {
    if blocks == [] then []
    else Split(blocks[0]) + if |blocks| == 1 then [] else [""] + LinesOfBlocks(blocks[1..])
  }

  lemma {:induction false} SplitBlocks(blocks: seq<string>)
    requires blocks != []
    ensures Split(JoinWith(blocks, "\n\n")) == LinesOfBlocks(blocks)
  {
    if |blocks| > 1 {
      var rest := JoinWith(blocks[1..], "\n\n");
      SplitBlocks(blocks[1..]);
      SplitAcross(blocks[0], "\n" + rest);
      SplitAcross("", rest);
      assert "" + "\n" + rest == "\n" + rest;
      assert blocks[0] + "\n\n" + rest == blocks[0] + "\n" + ("\n" + rest);
    } else {
      assert Split(blocks[0]) + [] == Split(blocks[0]);
    }
  }

  lemma LineOfParts(parts: Lines)
    ensures Plain().join(parts) == OnOneLine(parts) && OneLine(OnOneLine(parts))
    ensures Split(OnOneLine(parts)) == [OnOneLine(parts)]
  {
    JoinedIsOneLine(parts);
    AllWordsAreWords(parts);
    if AllWords(parts) != [] { JoinedEnds(AllWords(parts)); }
    SplitOneLine(OnOneLine(parts));
  }

  lemma {:induction false} ItemsAreLines(lines: Lines)
    ensures OneLines(Items(Plain(), lines)) && (Items(Plain(), lines) == [] <==> lines == [])
    decreases |lines|
  {
    if lines != [] {
      LineOfParts([lines[0]] + Leading(lines[1..]));
      ItemsAreLines(BehindLeading(lines[1..]));
    }
  }

  /** The first paragraph or item of a chunk, and what follows. */
  lemma {:induction false} ExtentIsLeading(lines: Lines)
    requires lines != [] && !Blank(lines[0])
    ensures var n := Extent(lines);
      && lines[..n] == [lines[0]] + Leading(Chunk(lines[1..]))
      && Chunk(lines[n..]) == BehindLeading(Chunk(lines[1..])) && BehindChunk(lines[n..]) == BehindChunk(lines[1..])
      && (n < |lines| ==> Blank(lines[n]) || IsItem(lines[n]))
    decreases |lines|
  {
    var rest := lines[1..];
    if rest != [] {
      BlankIsTrimmed(rest[0]);
      if Blank(rest[0]) || IsItem(rest[0]) {
        assert lines[..1] == [lines[0]] + [];
      } else {
        ExtentIsLeading(rest);
        var n := Extent(rest);
        assert lines[..n + 1] == [lines[0]] + rest[..n] && lines[n + 1..] == rest[n..];
      }
    } else {
      assert lines[..1] == [lines[0]] + [] && lines[1..] == [];
    }
  }

  /** What follows a chunk, set off by an empty line if there is any text. */
  function Behind(rest: Lines): Lines {
    (if HasText(rest) then [""] else []) + Laid(rest)
  }

  lemma {:induction false} BehindLines(lines: Lines)
    ensures HasText(lines) <==> HasText(BehindChunk(lines)) || Chunk(lines) != []
    ensures BehindChunk(lines) != [] ==> Blank(BehindChunk(lines)[0])
  {
    if lines != [] {
      BlankIsTrimmed(lines[0]);
      BehindLines(lines[1..]);
      assert lines == [lines[0]] + lines[1..];
    }
  }

  /** The first line, what is put behind it, and the rest. */
  lemma LaidFirst(lines: Lines) returns (line: string, rest: Lines)
    requires lines != [] && !Blank(lines[0])
    ensures |rest| < |lines| && Laid(lines) == [line] + Gap(lines[0], rest) + Laid(rest)
    ensures line == Plain().join([lines[0]] + Leading(Chunk(lines[1..]))) && Split(line) == [line]
    ensures Chunk(rest) == BehindLeading(Chunk(lines[1..])) && BehindChunk(rest) == BehindChunk(lines[1..])
    ensures rest != [] ==> Blank(rest[0]) || IsItem(rest[0])
  {
    var n := Extent(lines);
    ExtentIsLeading(lines);
    LineOfParts(lines[..n]);
    line, rest := OnOneLine(lines[..n]), lines[n..];
  }

  lemma ChunkOfText(lines: Lines)
    requires lines != [] && !Blank(lines[0])
    ensures Chunk(lines) == [lines[0]] + Chunk(lines[1..]) && Chunk(lines)[1..] == Chunk(lines[1..])
    ensures BehindChunk(lines) == BehindChunk(lines[1..]) && HasText(lines)
  {
    BlankIsTrimmed(lines[0]);
    assert lines[0] in lines;
  }

  lemma ChunkOfBlank(lines: Lines)
    requires lines == [] || Blank(lines[0])
    ensures Chunk(lines) == [] && BehindChunk(lines) == lines
  {
    if lines != [] { BlankIsTrimmed(lines[0]); }
  }

  /** From an item on: the items of the list, and what follows the chunk. */
  lemma {:induction false} LaidItems(lines: Lines)
    requires lines != [] && !Blank(lines[0]) && IsItem(lines[0])
    ensures Laid(lines) == Items(Plain(), Chunk(lines)) + Behind(BehindChunk(lines))
    decreases |lines|
  {
    var line, rest := LaidFirst(lines);
    ChunkOfText(lines);
    assert Items(Plain(), Chunk(lines)) == [line] + Items(Plain(), Chunk(rest));
    if rest == [] || Blank(rest[0]) {
      ChunkOfBlank(rest);
      LastItem(line, lines[0], rest);
    } else {
      ChunkOfText(rest);
      LaidItems(rest);
      MoreItems(line, Items(Plain(), Chunk(rest)), Behind(BehindChunk(rest)));
    }
  }

  lemma LastItem(line: string, first: string, rest: Lines)
    requires rest == [] || Blank(rest[0])
    ensures [line] + Gap(first, rest) + Laid(rest) == [line] + [] + Behind(rest)
  {
    GapAtEnd(first, rest);
    Apart([line], if HasText(rest) then [""] else [], Laid(rest));
  }

  lemma GapAtEnd(first: string, rest: Lines)
    requires rest == [] || Blank(rest[0])
    ensures Gap(first, rest) == if HasText(rest) then [""] else []
  {
  }

  lemma Apart(a: Lines, b: Lines, c: Lines)
    ensures a + b + c == a + [] + (b + c)
  {
  }

  lemma MoreItems(line: string, items: Lines, rest: Lines)
    ensures [line] + [] + (items + rest) == [line] + items + rest
  {
  }

  lemma ParagraphLeads(lines: Lines)
    requires lines != [] && !Blank(lines[0]) && !IsItem(lines[0])
    ensures Leading(Chunk(lines)) == [lines[0]] + Leading(Chunk(lines[1..]))
    ensures BehindLeading(Chunk(lines)) == BehindLeading(Chunk(lines[1..]))
  {
    ChunkOfText(lines);
  }

  /** From a paragraph on: its line, the list behind it if any, and what follows the chunk. */
  lemma LaidParagraph(lines: Lines) returns (line: string, list: Lines)
    requires lines != [] && !Blank(lines[0]) && !IsItem(lines[0])
    ensures line == Plain().join(Leading(Chunk(lines))) && Split(line) == [line] && Leading(Chunk(lines)) != []
    ensures list == Items(Plain(), BehindLeading(Chunk(lines)))
    ensures Laid(lines) == [line] + (if list == [] then [] else [""] + list) + Behind(BehindChunk(lines))
  {
    var rest;
    line, rest := LaidFirst(lines);
    ParagraphLeads(lines);
    ChunkOfText(lines);
    list := Items(Plain(), Chunk(rest));
    ListBehind(line, lines[0], rest, list);
  }

  lemma ListBehind(line: string, first: string, rest: Lines, list: Lines)
    requires !IsItem(first) && (rest != [] ==> Blank(rest[0]) || IsItem(rest[0]))
    requires list == Items(Plain(), Chunk(rest))
    ensures [line] + Gap(first, rest) + Laid(rest)
         == [line] + (if list == [] then [] else [""] + list) + Behind(BehindChunk(rest))
  {
    if rest == [] || Blank(rest[0]) {
      ChunkOfBlank(rest);
      LastItem(line, first, rest);
    } else {
      ChunkOfText(rest);
      LaidItems(rest);
      ItemsAreLines(Chunk(rest));
      assert Gap(first, rest) == [""];
      ListInside(line, list, Behind(BehindChunk(rest)));
    }
  }

  lemma ListInside(line: string, list: Lines, rest: Lines)
    ensures [line] + [""] + (list + rest) == [line] + ([""] + list) + rest
  {
  }

  // ---------------------------------------------------------------------------
  // All chunks
  // ---------------------------------------------------------------------------

  lemma LinesOfMore(block: string, blocks: seq<string>)
    ensures LinesOfBlocks([block] + blocks) == Split(block) + LinesBehind(blocks)
  {
    assert ([block] + blocks)[1..] == blocks;
  }

  /** The lines of further blocks. */
  function LinesBehind(blocks: seq<string>): Lines {
    if blocks == [] then [] else [""] + LinesOfBlocks(blocks)
  }

  /** The blocks behind a chunk, as lines. */
  lemma BlocksBehind(rest: Lines, blocks: seq<string>)
    requires Laid(rest) == LinesOfBlocks(blocks) && (HasText(rest) <==> blocks != [])
    ensures Behind(rest) == LinesBehind(blocks)
  {
  }

  lemma {:induction false} LaidIsBlocks(lines: Lines)
    ensures Laid(lines) == LinesOfBlocks(Blocks(Plain(), lines))
    ensures HasText(lines) <==> Blocks(Plain(), lines) != []
    decreases |lines|
  {
    if lines != [] {
      BlankIsTrimmed(lines[0]);
      assert lines == [lines[0]] + lines[1..];
      if Blank(lines[0]) {
        LaidIsBlocks(lines[1..]);
      } else {
        ChunkOfText(lines);
        var rest := BehindChunk(lines[1..]);
        LaidIsBlocks(rest);
        ChunkIsLaid(lines, rest, Blocks(Plain(), rest));
      }
    }
  }

  lemma ChunkIsLaid(lines: Lines, rest: Lines, blocks: seq<string>)
    requires lines != [] && !Blank(lines[0]) && rest == BehindChunk(lines)
    requires Laid(rest) == LinesOfBlocks(blocks) && (HasText(rest) <==> blocks != [])
    ensures ChunkBlocks(Plain(), Chunk(lines)) != []
    ensures Laid(lines) == LinesOfBlocks(ChunkBlocks(Plain(), Chunk(lines)) + blocks)
  {
    BlocksBehind(rest, blocks);
    if IsItem(lines[0]) {
      LaidItems(lines);
      ListIsLaid(lines, blocks);
    } else {
      var line, list := LaidParagraph(lines);
      ItemsAreLines(BehindLeading(Chunk(lines)));
      ParagraphIsLaid(line, list, blocks);
      ParagraphBlocks(Chunk(lines), line, list);
    }
  }

  lemma ParagraphBlocks(chunk: Lines, line: string, list: Lines)
    requires Leading(chunk) != [] && line == Plain().join(Leading(chunk))
    requires list == Items(Plain(), BehindLeading(chunk))
    ensures ChunkBlocks(Plain(), chunk) == [line] + List(Plain(), list)
  {
  }

  lemma ListIsLaid(lines: Lines, blocks: seq<string>)
    requires lines != [] && !Blank(lines[0]) && IsItem(lines[0])
    ensures ChunkBlocks(Plain(), Chunk(lines)) != []
    ensures LinesOfBlocks(ChunkBlocks(Plain(), Chunk(lines)) + blocks)
         == Items(Plain(), Chunk(lines)) + LinesBehind(blocks)
  {
    ChunkOfText(lines);
    var items := Items(Plain(), Chunk(lines));
    ItemsAreLines(Chunk(lines));
    SplitJoined(items);
    LinesOfMore(JoinWith(items, "\n"), blocks);
    assert Leading(Chunk(lines)) == [] && BehindLeading(Chunk(lines)) == Chunk(lines);
    assert ChunkBlocks(Plain(), Chunk(lines)) == [JoinWith(items, "\n")];
  }

  lemma ParagraphIsLaid(line: string, list: Lines, blocks: seq<string>)
    requires Split(line) == [line] && OneLines(list)
    ensures LinesOfBlocks([line] + List(Plain(), list) + blocks)
         == [line] + (if list == [] then [] else [""] + list) + LinesBehind(blocks)
  {
    if list == [] {
      LinesOfMore(line, blocks);
      assert [line] + [] == [line];
    } else {
      SplitJoined(list);
      LinesOfMore(JoinWith(list, "\n"), blocks);
      LinesOfMore(line, [JoinWith(list, "\n")] + blocks);
      TwoBlocks(line, JoinWith(list, "\n"), blocks);
      ListLast([line], [""], list, LinesBehind(blocks));
    }
  }

  lemma ListLast(a: Lines, b: Lines, c: Lines, d: Lines)
    ensures a + (b + (c + d)) == a + (b + c) + d
  {
  }

  lemma TwoBlocks(line: string, text: string, blocks: seq<string>)
    ensures [line] + [text] + blocks == [line] + ([text] + blocks)
  {
  }

  lemma {:induction false} UntilTagIsProse(lines: Lines)
    ensures IsProse(UntilTag(lines), lines)
  {
    if lines != [] {
      TagIsAt(lines[0]);
      if !IsTag(lines[0]) {
        UntilTagIsProse(lines[1..]);
        assert lines == [lines[0]] + lines[1..];
      }
    }
  }

  lemma {:induction false} TagIsAt(line: string)
    ensures IsTag(line) <==> HasTag(line)
  {
    if line != "" && IsSpace(line[0]) {
      TagIsAt(line[1..]);
      if HasTag(line) {
        var k :| 0 <= k < |line| && line[k] == '@' && forall j | 0 <= j < k :: IsSpace(line[j]);
        assert line[1..][k - 1] == '@' && forall j | 0 <= j < k - 1 :: IsSpace(line[1..][j]);
      }
      if HasTag(line[1..]) {
        var k :| 0 <= k < |line| - 1 && line[1..][k] == '@' && forall j | 0 <= j < k :: IsSpace(line[1..][j]);
        assert line[k + 1] == '@' && forall j | 0 <= j < k + 1 :: j > 0 ==> line[j] == line[1..][j - 1];
      }
    } else if line != "" {
      assert HasTag(line) <==> line[0] == '@';
      assert line[..1] == [line[0]];
    }
  }

  /** The lines of the description: those before the first tag, laid out. */
  lemma DescriptionIsLaid(lines: Lines, prose: Lines)
    requires IsProse(prose, lines)
    ensures Split(Description(lines)) == if Laid(prose) == [] then [""] else Laid(prose)
  {
    UntilTagIsProse(lines);
    OneProse(prose, UntilTag(lines), lines);
    LaidIsBlocks(prose);
    if Blocks(Plain(), prose) != [] { SplitBlocks(Blocks(Plain(), prose)); }
  }

  lemma OneProse(a: Lines, b: Lines, lines: Lines)
    requires IsProse(a, lines) && IsProse(b, lines)
    ensures a == b
  {
    assert a == lines[..|a|] && b == lines[..|b|];
  }

  // ---------------------------------------------------------------------------
  // Modes
  // ---------------------------------------------------------------------------

  /** The modes and their texts. */
  predicate Spells(mode: Mode, text: string) {
    || (mode == Emit && text == "emit") || (mode == Waterfall && text == "waterfall")
    || (mode == Parallel && text == "parallel") || (mode == Serial && text == "serial")
      || (mode == Bail && text == "bail")
  }

  /** The line is the tag, white space and the mode's text, with white space around. */
  ghost predicate SetsMode(line: string, mode: Mode) {
    exists lead, gap, text, trail ::
      && Blank(lead) && Blank(gap) && gap != "" && Blank(trail) && Spells(mode, text)
      && line == lead + ("@mode" + (gap + (text + trail)))
  }

  lemma {:induction false} TrimStartSplits(s: string) returns (lead: string)
    ensures Blank(lead) && s == lead + TrimStart(s) && (TrimStart(s) != "" ==> !IsSpace(TrimStart(s)[0]))
  {
    if s != "" && IsSpace(s[0]) {
      var more := TrimStartSplits(s[1..]);
      lead := [s[0]] + more;
      assert s == [s[0]] + s[1..];
    } else {
      lead := "";
      assert "" + s == s;
    }
  }

  lemma {:induction false} TrimEndSplits(s: string) returns (trail: string)
    ensures Blank(trail) && s == TrimEnd(s) + trail
  {
    if s != "" && IsSpace(s[|s| - 1]) {
      var less := TrimEndSplits(s[..|s| - 1]);
      trail := less + [s[|s| - 1]];
      assert s == s[..|s| - 1] + [s[|s| - 1]];
      assert TrimEnd(s) + less + [s[|s| - 1]] == TrimEnd(s) + trail;
    } else {
      trail := "";
      assert s + "" == s;
    }
  }

  lemma {:induction false} TrimStartSkips(lead: string, s: string)
    requires Blank(lead) && s != "" && !IsSpace(s[0])
    ensures TrimStart(lead + s) == s
  {
    if lead == "" {
      assert lead + s == s;
    } else {
      assert (lead + s)[1..] == lead[1..] + s;
      TrimStartSkips(lead[1..], s);
    }
  }

  lemma {:induction false} TrimEndSkips(s: string, trail: string)
    requires Blank(trail) && s != "" && !IsSpace(s[|s| - 1])
    ensures TrimEnd(s + trail) == s
  {
    if trail == "" {
      assert s + trail == s;
    } else {
      var less := trail[..|trail| - 1];
      assert (s + trail)[..|s + trail| - 1] == s + less;
      TrimEndSkips(s, less);
    }
  }

  lemma SpelledOnce(mode: Mode, text: string)
    ensures Spells(mode, text) <==> text == ModeText(mode)
    ensures Spells(mode, text) ==> text != "" && !IsSpace(text[0]) && !IsSpace(text[|text| - 1])
  {
  }

  lemma SetsIsForm(line: string, mode: Mode)
    requires Sets(line, mode)
    ensures SetsMode(line, mode)
  {
    var tag, text := TrimStart(line), ModeText(mode);
    var lead := TrimStartSplits(line);
    var gap := TrimStartSplits(tag[5..]);
    var trail := TrimEndSplits(TrimStart(tag[5..]));
    SpelledOnce(mode, text);
    assert gap != "" by { assert tag[5..][0] == tag[5] && IsSpace(tag[5]); }
    FormFits(line, lead, tag, gap, text, trail);
  }

  lemma FormFits(line: string, lead: string, tag: string, gap: string, text: string, trail: string)
    requires line == lead + tag && StartsWith(tag, "@mode") && tag[5..] == gap + (text + trail)
    ensures line == lead + ("@mode" + (gap + (text + trail)))
  {
    assert tag == tag[..5] + tag[5..];
  }

  lemma FormSets(line: string, mode: Mode, lead: string, gap: string, text: string, trail: string)
    requires Blank(lead) && Blank(gap) && gap != "" && Blank(trail) && Spells(mode, text)
    requires line == lead + ("@mode" + (gap + (text + trail)))
    ensures Sets(line, mode)
  {
    SpelledOnce(mode, text);
    var tag, rest := "@mode" + (gap + (text + trail)), gap + (text + trail);
    TrimStartSkips(lead, tag);
    TrimStartSkips(gap, text + trail);
    TrimEndSkips(text, trail);
    assert tag[..5] == "@mode" && tag[5..] == rest && tag[5] == gap[0] && gap[0] in gap;
  }

  lemma SetsExactly(line: string, mode: Mode)
    ensures Sets(line, mode) <==> SetsMode(line, mode)
  {
    if Sets(line, mode) { SetsIsForm(line, mode); }
    if SetsMode(line, mode) {
      var lead, gap, text, trail :|
        && Blank(lead) && Blank(gap) && gap != "" && Blank(trail) && Spells(mode, text)
        && line == lead + ("@mode" + (gap + (text + trail)));
      FormSets(line, mode, lead, gap, text, trail);
    }
  }

  lemma OneModeOnly(line: string, a: Mode, b: Mode)
    requires Sets(line, a) && Sets(line, b)
    ensures a == b
  {
    SpelledOnce(a, ModeText(a));
    SpelledOnce(b, ModeText(a));
  }

  lemma ModeExactly(line: string, mode: Mode)
    ensures ModeOf(line) == Some(mode) <==> SetsMode(line, mode)
  {
    SetsExactly(line, mode);
    if Sets(line, mode) && ModeOf(line).Some? { OneModeOnly(line, mode, ModeOf(line).value); }
  }

  ghost predicate SetsNone(line: string) {
    forall mode :: !SetsMode(line, mode)
  }

  lemma NoModeExactly(line: string)
    ensures ModeOf(line) == None <==> SetsNone(line)
  {
    if ModeOf(line).Some? { ModeExactly(line, ModeOf(line).value); }
    forall mode ensures ModeOf(line) == Some(mode) <==> SetsMode(line, mode) {
      ModeExactly(line, mode);
    }
  }

  /** The line sets the mode, and no line behind it sets any. */
  ghost predicate LastSets(lines: Lines, i: nat, mode: Mode) {
    i < |lines| && SetsMode(lines[i], mode) && forall line | line in lines[i + 1..] :: SetsNone(line)
  }

  /** The mode is what the last line of that form sets, wherever it stands. */
  ghost predicate IsLastMode(lines: Lines, mode: Option<Mode>) {
    match mode
    case None => forall line | line in lines :: SetsNone(line)
    case Some(m) => exists i: nat :: LastSets(lines, i, m)
  }

  lemma {:induction false} LastModeIsLast(lines: Lines)
    ensures IsLastMode(lines, LastMode(lines))
  {
    if lines != [] {
      var front, last := lines[..|lines| - 1], lines[|lines| - 1];
      NoModeExactly(last);
      if ModeOf(last).Some? {
        LastLineSets(lines, ModeOf(last).value);
        assert IsLastMode(lines, ModeOf(last));
      } else {
        LastModeIsLast(front);
        assert lines == front + [last];
        if LastMode(front).Some? {
          var i :| LastSets(front, i, LastMode(front).value);
          StillSets(front, last, i, LastMode(front).value);
        }
        assert IsLastMode(lines, LastMode(front));
      }
    }
  }

  lemma LastLineSets(lines: Lines, mode: Mode)
    requires lines != [] && ModeOf(lines[|lines| - 1]) == Some(mode)
    ensures LastSets(lines, |lines| - 1, mode)
  {
    ModeExactly(lines[|lines| - 1], mode);
  }

  lemma StillSets(front: Lines, last: string, i: nat, mode: Mode)
    requires LastSets(front, i, mode) && SetsNone(last)
    ensures LastSets(front + [last], i, mode)
  {
    assert (front + [last])[i + 1..] == front[i + 1..] + [last];
  }

  /** A mode tag, valid or not, is the tag's name and no longer word. */
  ghost predicate IsModeLine(line: string) {
    exists lead, rest :: Blank(lead) && line == lead + ("@mode" + rest) && (rest == "" || !IsWordChar(rest[0]))
  }

  lemma ModeTagExactly(line: string)
    ensures IsModeTag(line) <==> IsModeLine(line)
  {
    if IsModeTag(line) {
      var tag := TrimStart(line);
      var lead := TrimStartSplits(line);
      assert tag == "@mode" + tag[5..];
      assert line == lead + ("@mode" + tag[5..]);
    }
    if IsModeLine(line) {
      var lead, rest :| Blank(lead) && line == lead + ("@mode" + rest) && (rest == "" || !IsWordChar(rest[0]));
      TrimStartSkips(lead, "@mode" + rest);
      assert ("@mode" + rest)[..5] == "@mode";
    }
  }
}
