/**
 * The header of an archived note (scripts/archived-agent-notes.ts), line by line, and the pair of
 * files that its language switcher leads to.
 */
module ArchiveHeaders {
  import opened Basics
  import opened Texts
  import opened ArchiveDates
  import opened PairingRecord

  /** A date of the pattern that is real, not before the year 100 and not before the note's. */
  predicate IsGoodDate(date: string, noteDate: string)
    requires IsDateText(noteDate)
  {
    IsDateText(date) && Written(date).year >= 100 && IsReal(Written(date))
      && !Precedes(Written(date), Written(noteDate))
  }

  ghost predicate HasTitle(line: string) {
    exists title :: title != "" && !IsSpace(title[0]) && line == "# Agent Note: " + title
  }

  ghost predicate HasDate(line: string, noteDate: string)
    requires IsDateText(noteDate)
  {
    exists date :: IsGoodDate(date, noteDate) && line == "Archived: " + date
  }

  lemma TitleExactly(line: string)
    ensures IsTitle(line) <==> HasTitle(line)
  {
    if IsTitle(line) {
      assert line == "# Agent Note: " + line[14..];
    }
    if title :| title != "" && !IsSpace(title[0]) && line == "# Agent Note: " + title {
      assert line[..14] == "# Agent Note: ";
    }
  }

  lemma DateExactly(line: string, noteDate: string)
    requires IsDateText(noteDate)
    ensures GoodArchiveLine(line, noteDate) <==> HasDate(line, noteDate)
  {
    if GoodArchiveLine(line, noteDate) {
      assert line == "Archived: " + line[10..];
    }
    if date :| IsGoodDate(date, noteDate) && line == "Archived: " + date {
      assert line[..10] == "Archived: " && line[10..] == date;
    }
  }

  lemma {:induction false} BasenameBehind(folder: string, name: string)
    requires '/' !in name && (folder == "" || folder[|folder| - 1] == '/')
    ensures Basename(folder + name) == name
  {
    BasenameAppend(folder, name);
    assert Basename(folder) + name == name;
  }

  /** The switcher of one language's note names the other language's file of the pair. */
  lemma SwitcherLeadsAcross(folder: string, base: string)
    requires '/' !in base && (folder == "" || folder[|folder| - 1] == '/')
    requires PairPaths(folder + base + ".md").Some?
    ensures var paths := PairPaths(folder + base + ".md").value;
      && Switcher(base, false) == "English | [\U{4E2D}\U{6587}](" + Basename(paths.zh) + ")"
      && Switcher(base, true) == "[English](" + Basename(paths.source) + ") | \U{4E2D}\U{6587}"
  {
    var source, paths := folder + base + ".md", PairPaths(folder + base + ".md").value;
    assert source[..|source| - 3] == folder + base;
    PairNames(source);
    BasenameBehind(folder, base);
    assert "English | [\U{4E2D}\U{6587}](" + (base + ".zh.md") + ")"
      == "English | [\U{4E2D}\U{6587}](" + base + ".zh.md)";
    assert "[English](" + (base + ".md") + ") | \U{4E2D}\U{6587}" == "[English](" + base + ".md) | \U{4E2D}\U{6587}";
  }

  /** No complaint is made exactly of these six lines. */
  lemma HeaderExactly(lines: Lines, base: string, chinese: bool)
    requires |base| >= 10 && IsDateText(base[..10])
    ensures GoodHeader(lines, base, chinese) <==>
      && |lines| >= 6 && HasTitle(lines[0]) && lines[1] == "" && lines[2] == "Status: implemented"
      && HasDate(lines[3], base[..10]) && lines[4] == "" && lines[5] == Switcher(base, chinese)
  {
    if |lines| >= 6 {
      TitleExactly(lines[0]);
      DateExactly(lines[3], base[..10]);
    }
  }
}
