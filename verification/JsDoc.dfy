/**
 * `parseJsDoc` of scripts/jsdoc.ts: lines of a comment become paragraphs and lists, block
 * tags end the prose. The lines are given without comment delimiters and leading stars.
 */
module JsDoc {
  import opened Basics
  import opened Texts

  // ---------------------------------------------------------------------------
  // Words
  // ---------------------------------------------------------------------------

  /** The runs of characters that are not white space. */
  function Words(s: string): (words: seq<string>)
    ensures s != "" && !IsSpace(s[0]) ==> words != []
  {
    if s == "" then []
    else if IsSpace(s[0]) then Words(s[1..])
    else if |s| == 1 || IsSpace(s[1]) then [[s[0]]] + Words(s[1..])
    else
      var rest := Words(s[1..]);
      [[s[0]] + rest[0]] + rest[1..]
  }

  function AllWords(parts: seq<string>): seq<string> {
    if parts == [] then [] else Words(parts[0]) + AllWords(parts[1..])
  }

  /** `replace(/\s+/g, ' ')`. */
  function Squeezed(s: string): string {
    if s == "" then ""
    else if !IsSpace(s[0]) then [s[0]] + Squeezed(s[1..])
    else if |s| > 1 && IsSpace(s[1]) then Squeezed(s[1..])
    else " " + Squeezed(s[1..])
  }

  /** The parser's `join`: one line, single spaces. */
  function Joined(parts: seq<string>): string {
    Trim(Squeezed(JoinWith(parts, " ")))
  }

  lemma WordsFirst(c: char, s: string)
    ensures IsSpace(c) ==> Words([c] + s) == Words(s)
    ensures !IsSpace(c) && (s == "" || IsSpace(s[0])) ==> Words([c] + s) == [[c]] + Words(s)
    ensures !IsSpace(c) && s != "" && !IsSpace(s[0]) ==>
      Words(s) != [] && Words([c] + s) == [[c] + Words(s)[0]] + Words(s)[1..]
  {
    assert ([c] + s)[1..] == s;
  }

  /** White space separates words. */
  lemma {:induction false} WordsAround(a: string, c: char, b: string)
    requires IsSpace(c)
    ensures Words(a + ([c] + b)) == Words(a) + Words(b)
  {
    if a == "" {
      WordsFirst(c, b);
      assert a + ([c] + b) == [c] + b;
    } else {
      var rest := a[1..] + ([c] + b);
      WordsAround(a[1..], c, b);
      LongerWords(a[0], a[1..], rest, Words(b));
      FirstOff(a, [c] + b);
    }
  }

  lemma FirstOff(a: string, b: string)
    requires a != ""
    ensures a == [a[0]] + a[1..] && a + b == [a[0]] + (a[1..] + b)
  {
  }

  lemma LongerWords(c: char, s: string, t: string, more: seq<string>)
    requires Words(t) == Words(s) + more && t != ""
    requires if s == "" then IsSpace(t[0]) else t[0] == s[0]
    ensures Words([c] + t) == Words([c] + s) + more
  {
    WordsFirst(c, s);
    WordsFirst(c, t);
    if !IsSpace(c) {
      if s == "" || IsSpace(s[0]) {
        FirstWord([c], Words(s), more);
      } else {
        LongerFirst(c, Words(s), more);
      }
    }
  }

  lemma FirstWord(word: string, words: seq<string>, more: seq<string>)
    ensures [word] + (words + more) == [word] + words + more
  {
  }

  lemma LongerFirst(c: char, words: seq<string>, more: seq<string>)
    requires words != []
    ensures [[c] + (words + more)[0]] + (words + more)[1..] == [[c] + words[0]] + words[1..] + more
  {
    assert (words + more)[1..] == words[1..] + more;
  }

  lemma {:induction false} WordsOfSqueezed(s: string)
    ensures Words(Squeezed(s)) == Words(s)
    ensures Squeezed(s) == "" <==> s == ""
    ensures s != "" ==> (IsSpace(Squeezed(s)[0]) <==> IsSpace(s[0]))
  {
    if s != "" {
      WordsOfSqueezed(s[1..]);
      assert s == [s[0]] + s[1..];
      WordsFirst(s[0], s[1..]);
      WordsFirst(s[0], Squeezed(s[1..]));
      WordsFirst(' ', Squeezed(s[1..]));
    }
  }

  lemma {:induction false} WordsOfTrimStart(s: string)
    ensures Words(TrimStart(s)) == Words(s)
  {
    if s != "" && IsSpace(s[0]) { WordsOfTrimStart(s[1..]); }
  }

  lemma {:induction false} WordsOfTrimEnd(s: string)
    ensures Words(TrimEnd(s)) == Words(s)
  {
    if s != "" && IsSpace(s[|s| - 1]) {
      var front, c := s[..|s| - 1], s[|s| - 1];
      WordsOfTrimEnd(front);
      assert s == front + ([c] + "");
      WordsAround(front, c, "");
    }
  }

  lemma {:induction false} WordsOfJoin(parts: seq<string>, separator: string)
    requires separator != "" && forall c | c in separator :: IsSpace(c)
    ensures Words(JoinWith(parts, separator)) == AllWords(parts)
  {
    if |parts| == 1 {
      assert AllWords(parts[1..]) == [];
    } else if |parts| > 1 {
      var rest := JoinWith(parts[1..], separator);
      WordsOfJoin(parts[1..], separator);
      WordsAcross(parts[0], separator, rest);
    }
  }

  lemma {:induction false} WordsBehindSpace(space: string, b: string)
    requires forall c | c in space :: IsSpace(c)
    ensures Words(space + b) == Words(b)
  {
    if space == "" {
      assert space + b == b;
    } else {
      WordsBehindSpace(space[1..], b);
      WordsFirst(space[0], space[1..] + b);
      assert space + b == [space[0]] + (space[1..] + b);
    }
  }

  lemma WordsAcross(a: string, separator: string, b: string)
    requires separator != "" && forall c | c in separator :: IsSpace(c)
    ensures Words(a + separator + b) == Words(a) + Words(b)
  {
    var c, more := separator[0], separator[1..];
    WordsAround(a, c, more + b);
    WordsBehindSpace(more, b);
    Reshape(a, c, more, b);
    assert separator == [c] + more;
  }

  lemma Reshape(a: string, c: char, more: string, b: string)
    ensures a + ([c] + more) + b == a + ([c] + (more + b))
  {
  }

  /** Joining keeps every word. */
  lemma WordsOfJoined(parts: seq<string>)
    ensures Words(Joined(parts)) == AllWords(parts)
  {
    var s := JoinWith(parts, " ");
    WordsOfJoin(parts, " ");
    WordsOfSqueezed(s);
    WordsOfTrimStart(Squeezed(s));
    WordsOfTrimEnd(TrimStart(Squeezed(s)));
  }

  // ---------------------------------------------------------------------------
  // Lines
  // ---------------------------------------------------------------------------

  datatype Mode = Emit | Waterfall | Parallel | Serial | Bail

  function ModeText(mode: Mode): string {
    match mode
    case Emit => "emit"
    case Waterfall => "waterfall"
    case Parallel => "parallel"
    case Serial => "serial"
    case Bail => "bail"
  }

  /** `^@mode\b`, behind leading white space. */
  predicate IsModeTag(line: string) {
    var tag := TrimStart(line);
    StartsWith(tag, "@mode") && (|tag| == 5 || !IsWordChar(tag[5]))
  }

  /** `^@mode\s+(emit|...)\s*$`. */
  predicate Sets(line: string, mode: Mode) {
    var tag := TrimStart(line);
    StartsWith(tag, "@mode") && |tag| > 5 && IsSpace(tag[5]) && Trim(tag[5..]) == ModeText(mode)
  }

  function ModeOf(line: string): Option<Mode> {
    if Sets(line, Emit) then Some(Emit)
    else if Sets(line, Waterfall) then Some(Waterfall)
    else if Sets(line, Parallel) then Some(Parallel)
    else if Sets(line, Serial) then Some(Serial)
    else if Sets(line, Bail) then Some(Bail)
    else None
  }

  predicate IsTag(line: string) {
    StartsWith(TrimStart(line), "@")
  }

  predicate IsBlank(line: string) {
    Trim(line) == ""
  }

  /** `^-\s+`. */
  predicate StartsItem(line: string) {
    |line| >= 2 && line[0] == '-' && IsSpace(line[1])
  }

  // ---------------------------------------------------------------------------
  // Prose
  // ---------------------------------------------------------------------------

  /** The lines before the first block tag. */
  function UntilTag(lines: Lines): Lines {
    if lines == [] || IsTag(lines[0]) then [] else [lines[0]] + UntilTag(lines[1..])
  }

  /** The lines before the first blank one. */
  function Chunk(lines: Lines): Lines {
    if lines == [] || IsBlank(lines[0]) then [] else [lines[0]] + Chunk(lines[1..])
  }

  function BehindChunk(lines: Lines): (rest: Lines)
    ensures |rest| <= |lines|
  {
    if lines == [] || IsBlank(lines[0]) then lines else BehindChunk(lines[1..])
  }

  /** The lines before the first list item. */
  function Leading(chunk: Lines): Lines {
    if chunk == [] || StartsItem(chunk[0]) then [] else [chunk[0]] + Leading(chunk[1..])
  }

  function BehindLeading(chunk: Lines): (rest: Lines)
    ensures |rest| <= |chunk|
    ensures rest != [] ==> StartsItem(rest[0])
  {
    if chunk == [] || StartsItem(chunk[0]) then chunk else BehindLeading(chunk[1..])
  }

  /** How the lines of a paragraph or item and the items of a list become text. */
  datatype Style = Style(join: Lines -> string, listed: seq<string> -> string)

  /** Paragraphs and items collapse to one line; a list's items stand on lines of their own. */
  function Plain(): Style {
    Style(Joined, items => JoinWith(items, "\n"))
  }

  /** Each item is its first line and the lines up to the next one's. */
  function Items(style: Style, lines: Lines): seq<string>
    decreases |lines|
  {
    if lines == [] then [] else [style.join([lines[0]] + Leading(lines[1..]))] + Items(style, BehindLeading(lines[1..]))
  }

  function Paragraph(style: Style, lines: Lines): seq<string> {
    if lines == [] then [] else [style.join(lines)]
  }

  function List(style: Style, items: seq<string>): seq<string> {
    if items == [] then [] else [style.listed(items)]
  }

  /** A chunk is a paragraph, a list, or a paragraph introducing a list. */
  function ChunkBlocks(style: Style, chunk: Lines): seq<string> {
    Paragraph(style, Leading(chunk)) + List(style, Items(style, BehindLeading(chunk)))
  }

  /** The blocks of the prose, chunk by chunk. */
  function Blocks(style: Style, lines: Lines): seq<string>
    decreases |lines|
  {
    if lines == [] then []
    else if IsBlank(lines[0]) then Blocks(style, lines[1..])
    else ChunkBlocks(style, Chunk(lines)) + Blocks(style, BehindChunk(lines[1..]))
  }

  // ---------------------------------------------------------------------------
  // Every word once, in order
  // ---------------------------------------------------------------------------

  lemma {:induction false} AllWordsAppend(a: seq<string>, b: seq<string>)
    ensures AllWords(a + b) == AllWords(a) + AllWords(b)
    decreases |a|
  {
    if a == [] {
      assert a + b == b;
    } else {
      assert (a + b)[1..] == a[1..] + b;
      AllWordsAppend(a[1..], b);
    }
  }

  lemma {:induction false} LeadingSplits(chunk: Lines)
    ensures chunk == Leading(chunk) + BehindLeading(chunk)
  {
    if chunk != [] && !StartsItem(chunk[0]) { LeadingSplits(chunk[1..]); }
  }

  lemma {:induction false} ChunkSplits(lines: Lines)
    ensures lines == Chunk(lines) + BehindChunk(lines)
  {
    if lines != [] && !IsBlank(lines[0]) { ChunkSplits(lines[1..]); }
  }

  /** Joining keeps every word. */
  ghost predicate KeepsWords(style: Style) {
    && (forall lines :: Words(style.join(lines)) == AllWords(lines))
    && (forall items :: Words(style.listed(items)) == AllWords(items))
  }

  lemma PlainKeepsWords()
    ensures KeepsWords(Plain())
  {
    forall lines ensures Words(Plain().join(lines)) == AllWords(lines) {
      WordsOfJoined(lines);
    }
    forall items ensures Words(Plain().listed(items)) == AllWords(items) {
      WordsOfJoin(items, "\n");
    }
  }

  lemma WordsOfFirst(text: string, others: seq<string>)
    ensures AllWords([text] + others) == Words(text) + AllWords(others)
  {
    assert ([text] + others)[1..] == others;
  }

  /** The first item's lines, and the lines of the items behind it. */
  lemma FirstItem(style: Style, lines: Lines) returns (first: Lines, rest: Lines)
    requires lines != []
    ensures |rest| < |lines| && lines == first + rest
    ensures Items(style, lines) == [style.join(first)] + Items(style, rest)
  {
    first, rest := [lines[0]] + Leading(lines[1..]), BehindLeading(lines[1..]);
    LeadingSplits(lines[1..]);
  }

  lemma {:induction false} WordsOfItems(style: Style, lines: Lines)
    requires KeepsWords(style)
    ensures AllWords(Items(style, lines)) == AllWords(lines)
    decreases |lines|
  {
    if lines != [] {
      var first, rest := FirstItem(style, lines);
      WordsOfItems(style, rest);
      AllWordsAppend(first, rest);
      WordsOfFirst(style.join(first), Items(style, rest));
    }
  }

  lemma WordsOfOne(text: string)
    ensures AllWords([text]) == Words(text)
  {
    assert AllWords([text][1..]) == [];
  }

  lemma WordsOfChunk(style: Style, chunk: Lines)
    requires KeepsWords(style)
    ensures AllWords(ChunkBlocks(style, chunk)) == AllWords(chunk)
  {
    var front, items := Leading(chunk), Items(style, BehindLeading(chunk));
    LeadingSplits(chunk);
    AllWordsAppend(front, BehindLeading(chunk));
    AllWordsAppend(Paragraph(style, front), List(style, items));
    WordsOfItems(style, BehindLeading(chunk));
    WordsOfOne(style.join(front));
    WordsOfOne(style.listed(items));
  }

  lemma WordsOfBlank(line: string)
    requires IsBlank(line)
    ensures Words(line) == []
  {
    WordsOfTrimStart(line);
    WordsOfTrimEnd(TrimStart(line));
  }

  lemma {:induction false} WordsOfBlocks(style: Style, lines: Lines)
    requires KeepsWords(style)
    ensures AllWords(Blocks(style, lines)) == AllWords(lines)
    decreases |lines|
  {
    if lines != [] {
      if IsBlank(lines[0]) {
        WordsOfBlank(lines[0]);
        WordsOfBlocks(style, lines[1..]);
      } else {
        var chunk, rest := Chunk(lines), BehindChunk(lines[1..]);
        ChunkSplits(lines);
        WordsOfChunk(style, chunk);
        WordsOfBlocks(style, rest);
        AllWordsAppend(chunk, rest);
        AllWordsAppend(ChunkBlocks(style, chunk), Blocks(style, rest));
      }
    }
  }

  /** The description before links are unwrapped. */
  function Description(lines: Lines): string {
    JoinWith(Blocks(Plain(), UntilTag(lines)), "\n\n")
  }

  /** The words of the description are the words of the lines before the first tag. */
  lemma DescriptionKeepsWords(lines: Lines)
    ensures Words(Description(lines)) == AllWords(UntilTag(lines))
    ensures Words(Trim(Description(lines))) == AllWords(UntilTag(lines))
  {
    PlainKeepsWords();
    WordsOfBlocks(Plain(), UntilTag(lines));
    WordsOfJoin(Blocks(Plain(), UntilTag(lines)), "\n\n");
    WordsOfTrimStart(Description(lines));
    WordsOfTrimEnd(TrimStart(Description(lines)));
  }

  // ---------------------------------------------------------------------------
  // The parser
  // ---------------------------------------------------------------------------

  function Item(style: Style, lines: Lines): seq<string> {
    if lines == [] then [] else [style.join(lines)]
  }

  /** What the flush functions make of pending text. */
  function Flushed(style: Style, para: Lines, list: seq<string>, item: Lines): seq<string> {
    Paragraph(style, para) + List(style, list + Item(style, item))
  }

  /** The blocks of pending text and the rest of its chunk. */
  function ChunkFinish(style: Style, para: Lines, list: seq<string>, item: Lines, chunk: Lines): seq<string> {
    var tail := Items(style, BehindLeading(chunk));
    if item == [] then Paragraph(style, para + Leading(chunk)) + List(style, list + tail)
    else List(style, list + ([style.join(item + Leading(chunk))] + tail))
  }

  /** The blocks still to come from pending text and the lines behind it. */
  function Finish(style: Style, para: Lines, list: seq<string>, item: Lines, rest: Lines): seq<string> {
    ChunkFinish(style, para, list, item, Chunk(rest)) + Blocks(style, BehindChunk(rest))
  }

  /** All blocks, once the remaining lines are read. */
  function Whole(style: Style, blocks: seq<string>, para: Lines, list: seq<string>, item: Lines,
                 rest: Lines): seq<string> {
    blocks + Finish(style, para, list, item, rest)
  }

  lemma Regroup(a: seq<string>, b: seq<string>, c: seq<string>)
    ensures a + (b + c) == a + b + c
  {
  }

  lemma NothingBefore(a: seq<string>)
    ensures [] + a == a
  {
  }

  lemma BlocksByChunk(style: Style, rest: Lines)
    ensures Blocks(style, rest) == ChunkBlocks(style, Chunk(rest)) + Blocks(style, BehindChunk(rest))
  {
    if rest == [] || IsBlank(rest[0]) {
      assert Chunk(rest) == [] && BehindChunk(rest) == rest;
      assert ChunkBlocks(style, []) == [];
      NothingBefore(Blocks(style, rest));
    } else {
      assert BehindChunk(rest) == BehindChunk(rest[1..]);
    }
  }

  lemma FinishFresh(style: Style, rest: Lines)
    ensures Finish(style, [], [], [], rest) == ChunkBlocks(style, Chunk(rest)) + Blocks(style, BehindChunk(rest))
  {
    NothingBefore(Leading(Chunk(rest)));
    NothingBefore(Items(style, BehindLeading(Chunk(rest))));
  }

  lemma WholeFresh(style: Style, blocks: seq<string>, rest: Lines)
    ensures Whole(style, blocks, [], [], [], rest) == blocks + Blocks(style, rest)
  {
    FinishFresh(style, rest);
    BlocksByChunk(style, rest);
  }

  lemma FinishFlushes(style: Style, para: Lines, list: seq<string>, item: Lines, rest: Lines)
    requires item != [] ==> para == []
    requires rest == [] || IsBlank(rest[0])
    ensures Finish(style, para, list, item, rest) == Flushed(style, para, list, item) + Blocks(style, rest)
  {
    assert Chunk(rest) == [] && Items(style, []) == [] && BehindChunk(rest) == rest;
    NothingBehind(para);
    NothingBehind(item);
    NothingBehind(Item(style, item));
  }

  lemma NothingBehind(texts: seq<string>)
    ensures texts + [] == texts
  {
  }

  lemma WholeAtEnd(style: Style, blocks: seq<string>, para: Lines, list: seq<string>, item: Lines)
    requires item != [] ==> para == []
    ensures Whole(style, blocks, para, list, item, []) == blocks + Flushed(style, para, list, item)
  {
    FinishFlushes(style, para, list, item, []);
    assert Flushed(style, para, list, item) + [] == Flushed(style, para, list, item);
  }

  lemma WholeAtBlank(style: Style, blocks: seq<string>, para: Lines, list: seq<string>, item: Lines, line: string,
                     rest: Lines)
    requires item != [] ==> para == []
    requires IsBlank(line)
    ensures Whole(style, blocks, para, list, item, [line] + rest)
         == Whole(style, blocks + Flushed(style, para, list, item), [], [], [], rest)
  {
    assert ([line] + rest)[1..] == rest;
    FinishFlushes(style, para, list, item, [line] + rest);
    WholeFresh(style, blocks + Flushed(style, para, list, item), rest);
    assert Blocks(style, [line] + rest) == Blocks(style, rest);
    Regroup(blocks, Flushed(style, para, list, item), Blocks(style, rest));
  }

  lemma ChunkFirst(line: string, rest: Lines)
    requires !IsBlank(line)
    ensures Chunk([line] + rest) == [line] + Chunk(rest)
    ensures BehindChunk([line] + rest) == BehindChunk(rest)
  {
    assert ([line] + rest)[1..] == rest;
  }

  lemma LeadingFirst(style: Style, line: string, chunk: Lines)
    ensures Leading([line] + chunk) == if StartsItem(line) then [] else [line] + Leading(chunk)
    ensures BehindLeading([line] + chunk) == if StartsItem(line) then [line] + chunk else BehindLeading(chunk)
    ensures Items(style, [line] + chunk) == [style.join([line] + Leading(chunk))] + Items(style, BehindLeading(chunk))
  {
    assert ([line] + chunk)[1..] == chunk;
  }

  /** A new item flushes a pending paragraph and ends a pending item. */
  lemma ChunkItem(style: Style, para: Lines, list: seq<string>, item: Lines, line: string, chunk: Lines)
    requires (item != [] ==> para == []) && StartsItem(line)
    ensures ChunkFinish(style, para, list, item, [line] + chunk)
         == Paragraph(style, para) + ChunkFinish(style, [], list + Item(style, item), [line], chunk)
  {
    LeadingFirst(style, line, chunk);
    var first, tail := [style.join([line] + Leading(chunk))], Items(style, BehindLeading(chunk));
    if item == [] {
      NothingBehind(para);
      NothingBehind(list);
    } else {
      NothingBehind(item);
      Regroup(list, Item(style, item), first + tail);
      NothingBefore(ChunkFinish(style, [], list + Item(style, item), [line], chunk));
    }
  }

  lemma FinishItem(style: Style, para: Lines, list: seq<string>, item: Lines, line: string, rest: Lines)
    requires item != [] ==> para == []
    requires !IsBlank(line) && StartsItem(line)
    ensures Finish(style, para, list, item, [line] + rest)
         == Paragraph(style, para) + Finish(style, [], list + Item(style, item), [line], rest)
  {
    ChunkFirst(line, rest);
    ChunkItem(style, para, list, item, line, Chunk(rest));
    Regroup(Paragraph(style, para), ChunkFinish(style, [], list + Item(style, item), [line], Chunk(rest)),
            Blocks(style, BehindChunk(rest)));
  }

  lemma WholeAtItem(style: Style, blocks: seq<string>, para: Lines, list: seq<string>, item: Lines, line: string,
                    rest: Lines)
    requires item != [] ==> para == []
    requires !IsBlank(line) && StartsItem(line)
    ensures Whole(style, blocks, para, list, item, [line] + rest)
         == Whole(style, blocks + Paragraph(style, para), [], list + Item(style, item), [line], rest)
  {
    FinishItem(style, para, list, item, line, rest);
    var finish := Finish(style, [], list + Item(style, item), [line], rest);
    Regroup(blocks, Paragraph(style, para), finish);
  }

  lemma ChunkMore(style: Style, para: Lines, list: seq<string>, item: Lines, line: string, chunk: Lines)
    requires !StartsItem(line)
    ensures ChunkFinish(style, para, list, item, [line] + chunk) ==
      if item == [] then ChunkFinish(style, para + [line], list, [], chunk)
      else ChunkFinish(style, para, list, item + [line], chunk)
  {
    LeadingFirst(style, line, chunk);
    assert item + ([line] + Leading(chunk)) == item + [line] + Leading(chunk);
    assert para + ([line] + Leading(chunk)) == para + [line] + Leading(chunk);
  }

  lemma WholeAtMore(
      style: Style, blocks: seq<string>, para: Lines, list: seq<string>, item: Lines, line: string, rest: Lines)
    requires !IsBlank(line) && !StartsItem(line)
    ensures Whole(style, blocks, para, list, item, [line] + rest) ==
      if item == [] then Whole(style, blocks, para + [line], list, [], rest)
      else Whole(style, blocks, para, list, item + [line], rest)
  {
    ChunkFirst(line, rest);
    ChunkMore(style, para, list, item, line, Chunk(rest));
  }

  /** The last valid mode. */
  function LastMode(lines: Lines): Option<Mode> {
    if lines == [] then None
    else
      var mode := ModeOf(lines[|lines| - 1]);
      if mode.Some? then mode else LastMode(lines[..|lines| - 1])
  }

  predicate HasMode(lines: Lines) {
    exists line :: line in lines && IsModeTag(line)
  }

  lemma TagLines(line: string)
    ensures IsModeTag(line) ==> IsTag(line)
    ensures ModeOf(line).Some? ==> IsModeTag(line)
  {
    if IsModeTag(line) {
      var tag := TrimStart(line);
      assert tag[..1] == tag[..5][..1] == "@mode"[..1] == "@";
    }
  }

  lemma MoreModes(lines: Lines, i: nat)
    requires i < |lines|
    ensures HasMode(lines[..i + 1]) <==> HasMode(lines[..i]) || IsModeTag(lines[i])
    ensures LastMode(lines[..i + 1]) == if ModeOf(lines[i]).Some? then ModeOf(lines[i]) else LastMode(lines[..i])
  {
    assert lines[..i + 1] == lines[..i] + [lines[i]];
    assert lines[i] in lines[..i + 1];
    assert forall line | line in lines[..i] :: line in lines[..i + 1];
    assert lines[..i + 1][..i] == lines[..i];
  }

  /** The blocks so far and the text pending in an open paragraph, list or item. */
  class Prose {
    const style: Style
    var blocks: seq<string>
    var para: Lines
    var list: seq<string>
    var item: Lines
    var inTags: bool
    var mode: Option<Mode>
    var hasMode: bool

    constructor (style: Style)
      ensures Valid() && Empty() && this.style == style && blocks == [] && !inTags && mode == None && !hasMode
    {
      this.style := style;
      blocks, para, list, item := [], [], [], [];
      inTags, mode, hasMode := false, None, false;
    }

    /** An open item excludes an open paragraph, and a pending list has an open item. */
    ghost predicate Valid()
      reads this`blocks, this`para, this`list, this`item, this`inTags
    {
      (item != [] ==> para == []) && (list != [] ==> item != [])
    }

    ghost predicate Empty()
      reads this`blocks, this`para, this`list, this`item, this`inTags
    {
      para == [] && list == [] && item == []
    }

    ghost function Total(rest: Lines): seq<string>
      reads this`blocks, this`para, this`list, this`item, this`inTags
    {
      Whole(style, blocks, para, list, item, rest)
    }

    method FlushItem()
      modifies this`blocks, this`para, this`list, this`item
      ensures list == old(list) + Item(style, old(item)) && item == []
      ensures blocks == old(blocks) && para == old(para)
    {
      if item != [] { list := list + [style.join(item)]; }
      item := [];
    }

    method FlushList()
      modifies this`blocks, this`para, this`list, this`item
      ensures blocks == old(blocks) + List(style, old(list) + Item(style, old(item)))
      ensures list == [] && item == [] && para == old(para)
    {
      FlushItem();
      if list != [] { blocks := blocks + [style.listed(list)]; }
      list := [];
    }

    method FlushPara()
      requires Valid()
      modifies this`blocks, this`para, this`list, this`item
      ensures Valid() && Empty()
      ensures blocks == old(blocks) + Flushed(style, old(para), old(list), old(item))
    {
      FlushList();
      if para != [] { blocks := blocks + [style.join(para)]; }
      para := [];
    }

    /** A list item starts; a paragraph right above it is flushed first. */
    method AddItem(line: string, ghost rest: Lines)
      requires Valid() && !IsBlank(line) && StartsItem(line)
      modifies this`blocks, this`para, this`list, this`item
      ensures Valid() && Total(rest) == old(Total([line] + rest))
    {
      ghost var was := blocks;
      WholeAtItem(style, blocks, para, list, item, line, rest);
      FlushItem();
      if para != [] { blocks := blocks + [style.join(para)]; }
      assert blocks == was + Paragraph(style, para);
      para := [];
      item := [line];
    }

    /** A line that is neither a tag, nor blank, nor an item. */
    method AddLine(line: string, ghost rest: Lines)
      requires Valid() && !IsBlank(line) && !StartsItem(line)
      modifies this`blocks, this`para, this`list, this`item
      ensures Valid() && Total(rest) == old(Total([line] + rest))
    {
      WholeAtMore(style, blocks, para, list, item, line, rest);
      if item != [] { item := item + [line]; } else { para := para + [line]; }
    }

    method AddBlank(line: string, ghost rest: Lines)
      requires Valid() && IsBlank(line)
      modifies this`blocks, this`para, this`list, this`item
      ensures Valid() && Total(rest) == old(Total([line] + rest))
    {
      WholeAtBlank(style, blocks, para, list, item, line, rest);
      FlushPara();
    }

    /** A tag, or the end of the comment. */
    method End()
      requires Valid()
      modifies this`blocks, this`para, this`list, this`item
      ensures Valid() && Empty() && blocks == Total([]) == old(Total([]))
    {
      WholeAtEnd(style, blocks, para, list, item);
      FlushPara();
      WholeFresh(style, blocks, []);
    }

    /** All blocks, once the remaining lines of the comment are read. */
    ghost function Expected(lines: Lines): seq<string>
      reads this`blocks, this`para, this`list, this`item, this`inTags
    {
      Total(if inTags then [] else UntilTag(lines))
    }

    /** One line: a tag ends the prose for good. */
    method Read(line: string, ghost later: Lines)
      requires Valid()
      modifies this`blocks, this`para, this`list, this`item, this`inTags
      ensures Valid() && Expected(later) == old(Expected([line] + later))
    {
      assert ([line] + later)[1..] == later;
      if IsTag(line) {
        End();
        inTags := true;
      } else if !inTags {
        if IsBlank(line) {
          AddBlank(line, UntilTag(later));
        } else if StartsItem(line) {
          AddItem(line, UntilTag(later));
        } else {
          AddLine(line, UntilTag(later));
        }
      }
    }

    ghost predicate ProseAt(lines: Lines, i: nat)
      reads this`blocks, this`para, this`list, this`item, this`inTags
    {
      Valid() && i <= |lines| && Expected(lines[i..]) == Blocks(style, UntilTag(lines))
    }

    ghost predicate ModeAt(lines: Lines, i: nat)
      reads this`mode, this`hasMode
    {
      i <= |lines| && mode == LastMode(lines[..i]) && (hasMode <==> HasMode(lines[..i]))
    }

    method ReadProse(lines: Lines, i: nat)
      requires ProseAt(lines, i) && i < |lines|
      modifies this`blocks, this`para, this`list, this`item, this`inTags
      ensures ProseAt(lines, i + 1)
    {
      FirstLineOff(lines, i);
      Read(lines[i], lines[i + 1..]);
    }

    method ReadMode(lines: Lines, i: nat)
      requires ModeAt(lines, i) && i < |lines|
      modifies this`mode, this`hasMode
      ensures ModeAt(lines, i + 1)
    {
      var line := lines[i];
      MoreModes(lines, i);
      TagLines(line);
      if ModeOf(line).Some? {
        mode, hasMode := ModeOf(line), true;
      } else if IsModeTag(line) {
        hasMode := true;
      }
    }

    ghost predicate At(lines: Lines, i: nat)
      reads this
    {
      ProseAt(lines, i) && ModeAt(lines, i)
    }

    method ReadOne(lines: Lines, i: nat)
      requires At(lines, i) && i < |lines|
      modifies this
      ensures At(lines, i + 1)
    {
      ReadMode(lines, i);
      ReadProse(lines, i);
    }

    method ReadAll(lines: Lines)
      requires At(lines, 0)
      modifies this
      ensures At(lines, |lines|)
    {
      for i := 0 to |lines|
        invariant At(lines, i)
      {
        ReadOne(lines, i);
      }
    }

    method Finish(ghost lines: Lines)
      requires At(lines, |lines|)
      modifies this`blocks, this`para, this`list, this`item
      ensures blocks == Blocks(style, UntilTag(lines)) && mode == LastMode(lines) && (hasMode <==> HasMode(lines))
    {
      assert lines[..|lines|] == lines && lines[|lines|..] == [];
      End();
    }
  }

  lemma FirstLineOff(lines: Lines, i: nat)
    requires i < |lines|
    ensures lines[i..] == [lines[i]] + lines[i + 1..]
  {
  }

  lemma AtStart(prose: Prose, lines: Lines)
    requires prose.Valid() && prose.Empty() && prose.blocks == [] && !prose.inTags
    requires prose.mode == None && !prose.hasMode
    ensures prose.At(lines, 0)
  {
    assert lines[0..] == lines;
    WholeFresh(prose.style, [], UntilTag(lines));
    NothingBefore(Blocks(prose.style, UntilTag(lines)));
  }

  /** `parseJsDoc`, before links are unwrapped. */
  method ParseJsDoc(lines: Lines) returns (description: string, mode: Option<Mode>, hasMode: bool)
    ensures description == Description(lines)
    ensures mode == LastMode(lines)
    ensures hasMode <==> HasMode(lines)
  {
    var prose := new Prose(Plain());
    AtStart(prose, lines);
    prose.ReadAll(lines);
    prose.Finish(lines);
    return JoinWith(prose.blocks, "\n\n"), prose.mode, prose.hasMode;
  }
}
