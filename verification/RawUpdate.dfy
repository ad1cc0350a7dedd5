/**
 * The mechanical update of scripts/translation-brief.ts on whole texts: what the lines of a text
 * are, with or without a final line feed, and what the update of three texts is.
 */
module RawUpdate {
  import opened Basics
  import opened Texts
  import opened Decimals
  import opened TranslationBrief
  import opened MechanicalUpdate

  /** The lines with a line feed behind each; the last one is left open if so wished. */
  function Raw(lines: Lines, open: bool): string {
    if lines == [] then ""
    else if |lines| == 1 then lines[0] + if open then "" else "\n"
    else lines[0] + "\n" + Raw(lines[1..], open)
  }

  /** An open last line is not empty, or it would not be there. */
  predicate IsRaw(lines: Lines, open: bool) {
    OneLines(lines) && (open ==> lines != [] && lines[|lines| - 1] != "")
  }

  lemma {:induction false} ClosedIsText(lines: Lines)
    requires lines != []
    ensures Raw(lines, false) == Text(lines)
  {
    if |lines| > 1 { ClosedIsText(lines[1..]); }
  }

  /** A document without lines is written as one line feed. */
  lemma NoLinesWritten()
    ensures Text([]) == "\n" && LinesOf("") == [] && LinesOf(Text([])) == [""]
  {
    assert Unified("\n") == "\n";
    SplitAcross("", "");
  }

  lemma {:induction false} UnifiedOneLine(line: string)
    requires OneLine(line)
    ensures Unified(line) == line
  {
    if line != "" {
      assert [line[0]] + line[1..] == line;
      UnifiedOneLine(line[1..]);
    }
  }

  /** The lines read back, where each line that was ended has lost a carriage return. */
  function ReadBack(lines: Lines, open: bool): Lines
    requires open ==> lines != []
  {
    if open then Trimmed(lines[..|lines| - 1]) + [lines[|lines| - 1]] else Trimmed(lines)
  }

  lemma {:induction false} SplitOfOpen(lines: Lines)
    requires IsRaw(lines, true)
    ensures Split(Unified(Raw(lines, true))) == ReadBack(lines, true)
    decreases |lines|
  {
    var line := lines[0];
    if |lines| == 1 {
      assert line + "" == line;
      UnifiedOneLine(line);
      SplitOneLine(line);
      assert lines[..0] == [] && [] + [line] == [line];
    } else {
      UnifiedLine(line, Raw(lines[1..], true));
      SplitLine(WithoutReturn(line), Unified(Raw(lines[1..], true)));
      SplitOfOpen(lines[1..]);
      assert lines[..|lines| - 1] == [line] + lines[1..][..|lines| - 2];
    }
  }

  /** What the lines of a text are: for every text, since each is of this form. */
  lemma LinesOfRaw(lines: Lines, open: bool)
    requires IsRaw(lines, open)
    ensures LinesOf(Raw(lines, open)) == ReadBack(lines, open)
  {
    if open {
      SplitOfOpen(lines);
    } else if lines != [] {
      ClosedIsText(lines);
      LinesOfText(lines);
    } else {
      assert LinesOf("") == [];
    }
  }

  lemma {:induction false} EveryTextIsRaw(s: string) returns (lines: Lines, open: bool)
    ensures IsRaw(lines, open) && Raw(lines, open) == s
  {
    if s == "" {
      lines, open := [], false;
    } else if s[0] == '\n' {
      lines, open := EveryTextIsRaw(s[1..]);
      RawBehindBreak(lines, open);
      lines := [""] + lines;
    } else {
      var rest;
      rest, open := EveryTextIsRaw(s[1..]);
      if rest == [] {
        lines, open := [[s[0]]], true;
      } else {
        RawLonger(s[0], rest, open);
        lines := [[s[0]] + rest[0]] + rest[1..];
      }
    }
  }

  lemma RawBehindBreak(rest: Lines, open: bool)
    requires IsRaw(rest, open)
    ensures IsRaw([""] + rest, open) && Raw([""] + rest, open) == "\n" + Raw(rest, open)
  {
    assert ([""] + rest)[1..] == rest;
  }

  lemma RawLonger(c: char, rest: Lines, open: bool)
    requires IsRaw(rest, open) && rest != [] && c != '\n'
    ensures var longer := [[c] + rest[0]] + rest[1..];
      IsRaw(longer, open) && Raw(longer, open) == [c] + Raw(rest, open)
  {
    var longer := [[c] + rest[0]] + rest[1..];
    assert longer[1..] == rest[1..];
    assert rest[0] in rest && forall line | line in rest[1..] :: line in rest;
    if |rest| > 1 {
      assert longer[|longer| - 1] == rest[|rest| - 1];
      assert [c] + rest[0] + "\n" + Raw(rest[1..], open) == [c] + (rest[0] + "\n" + Raw(rest[1..], open));
    } else {
      assert [c] + rest[0] + "\n" == [c] + (rest[0] + "\n");
    }
  }

  // ---------------------------------------------------------------------------
  // Documents put together from prose and code
  // ---------------------------------------------------------------------------

  /** Prose and code in turn, none of whose lines ends in a carriage return. */
  predicate AreParts(prose: seq<Lines>, code: seq<Lines>, open: bool) {
    && |prose| == |code| + 1 && (forall k | 0 <= k < |code| :: code[k] != [])
    && IsRaw(Weave(prose, code, 0), open) && Clean(Weave(prose, code, 0))
  }

  /** The text of the parts, with its blocks where they lie in it. */
  function Whole(prose: seq<Lines>, code: seq<Lines>, open: bool): Document
    requires |prose| == |code| + 1
  {
    Document(Raw(Weave(prose, code, 0), open), Shifted(prose, code))
  }

  lemma CleanIsReadBack(lines: Lines, open: bool)
    requires IsRaw(lines, open) && Clean(lines)
    ensures ReadBack(lines, open) == lines
  {
    if open {
      var front := lines[..|lines| - 1];
      assert forall line | line in front :: line in lines;
      TrimmedExactly(front);
    } else {
      TrimmedExactly(lines);
    }
  }

  lemma PartsOfWhole(prose: seq<Lines>, code: seq<Lines>, open: bool)
    requires AreParts(prose, code, open)
    ensures var doc := Whole(prose, code, open);
      && LinesOf(doc.markdown) == Weave(prose, code, 0)
      && Parsed(doc) && ProseOf(doc) == prose && CodeOf(doc) == code
  {
    LinesOfRaw(Weave(prose, code, 0), open);
    CleanIsReadBack(Weave(prose, code, 0), open);
    CutsBack(prose, code);
  }

  lemma {:induction false} PartsAreWithin(prose: seq<Lines>, code: seq<Lines>, i: nat, k: nat)
    requires |prose| == |code| + 1 && i <= k <= |code|
    ensures forall line | line in prose[k] :: line in Weave(prose, code, i)
    ensures k < |code| ==> forall line | line in code[k] :: line in Weave(prose, code, i)
    decreases |code| - i
  {
    if i < k {
      PartsAreWithin(prose, code, i + 1, k);
    }
  }

  lemma CleanParts(prose: seq<Lines>, code: seq<Lines>, open: bool)
    requires AreParts(prose, code, open)
    ensures forall k | 0 <= k < |code| :: Clean(code[k])
  {
    forall k | 0 <= k < |code| ensures Clean(code[k]) {
      PartsAreWithin(prose, code, 0, k);
    }
  }

  /** What the update of three texts is. With prose that the masks cannot mistake there is one exactly
      when the prose stayed, some block changed and the translation has the old blocks; then it is the
      translation's prose, down to its last line, with the new blocks. */
  lemma UpdateOfTexts(p: seq<Lines>, was: seq<Lines>, open1: bool, q: seq<Lines>, now: seq<Lines>, open2: bool,
                      theirs: seq<Lines>, code: seq<Lines>, open3: bool)
    requires AreParts(p, was, open1) && AreParts(q, now, open2) && AreParts(theirs, code, open3) && Unmistakable(p)
    ensures Parsed(Whole(p, was, open1)) && Parsed(Whole(q, now, open2)) && Parsed(Whole(theirs, code, open3))
    ensures var update := Update(Whole(p, was, open1), Whole(q, now, open2), Whole(theirs, code, open3));
      if p == q && was == code && was != now then
        |theirs| == |now| + 1 && update == Some(Raw(Weave(theirs, now, 0), false))
      else update == None
  {
    PartsOfWhole(p, was, open1);
    PartsOfWhole(q, now, open2);
    PartsOfWhole(theirs, code, open3);
    var confirmed, current, counterpart := Whole(p, was, open1), Whole(q, now, open2), Whole(theirs, code, open3);
    UpdatesExactlyCodeChanges(confirmed, current, counterpart);
    if p == q && was == code && was != now {
      UpdateInterleaves(confirmed, current, counterpart);
      CleanParts(q, now, open2);
      SettledExactly(was, now);
      WeaveNotEmpty(theirs, now);
      ClosedIsText(Weave(theirs, now, 0));
    }
  }

  /** The masked text: for each block one line with its number. */
  lemma MaskOfText(prose: seq<Lines>, code: seq<Lines>, open: bool, marks: seq<Lines>)
    requires AreParts(prose, code, open) && code != [] && |marks| == |code|
    requires forall k | 0 <= k < |marks| :: marks[k] == ["DSH_TRANSLATION_CODE_" + Decimal(k)]
    ensures Parsed(Whole(prose, code, open)) && Mask(Whole(prose, code, open)) == Raw(Weave(prose, marks, 0), false)
  {
    PartsOfWhole(prose, code, open);
    var doc := Whole(prose, code, open);
    assert marks == Marks(|code|);
    MaskIsWeave(doc);
    WeaveNotEmpty(prose, marks);
    ClosedIsText(Weave(prose, marks, 0));
  }
}
