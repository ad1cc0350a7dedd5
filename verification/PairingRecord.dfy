/**
 * Bilingual pairing records of scripts/translation-pairing-record.ts: the paths of a pair,
 * and the record's parser and printer.
 */
module PairingRecord {
  import opened Basics
  import opened Texts

  // ---------------------------------------------------------------------------
  // Paths
  // ---------------------------------------------------------------------------

  datatype Paths = Paths(source: string, zh: string, meta: string)

  predicate EndsWith(s: string, suffix: string) {
    |suffix| <= |s| && s[|s| - |suffix|..] == suffix
  }

  /** `s.replace(/suffix$/, other)` where `s` ends with the suffix. */
  function Swap(s: string, suffix: string, other: string): string
    requires EndsWith(s, suffix)
  {
    s[..|s| - |suffix|] + other
  }

  /** `translationPairPaths`; None stands for the thrown error. */
  function PairPaths(source: string): Option<Paths> {
    if !EndsWith(source, ".md") || EndsWith(source, ".zh.md") then None
    else Some(Paths(source, Swap(source, ".md", ".zh.md"), Swap(source, ".md", ".i18n.yaml")))
  }

  /** `translationPairPathsFromMeta`. */
  function PairPathsFromMeta(meta: string): Option<Paths> {
    if !EndsWith(meta, ".i18n.yaml") then None else PairPaths(Swap(meta, ".i18n.yaml", ".md"))
  }

  lemma SwapBack(stem: string, suffix: string, other: string)
    ensures EndsWith(stem + suffix, suffix) && Swap(stem + suffix, suffix, other) == stem + other
  {
    assert (stem + suffix)[..|stem|] == stem && (stem + suffix)[|stem|..] == suffix;
  }

  lemma StemOf(s: string, suffix: string)
    requires EndsWith(s, suffix)
    ensures s == s[..|s| - |suffix|] + suffix
  {
  }

  /** The record's path determines the pair, and the pair its record's path. */
  lemma MetaPathsInvert(source: string, meta: string)
    ensures PairPaths(source).Some? ==> PairPathsFromMeta(PairPaths(source).value.meta) == PairPaths(source)
    ensures PairPathsFromMeta(meta).Some? ==> PairPathsFromMeta(meta).value.meta == meta
    ensures PairPathsFromMeta(meta).Some? ==> PairPaths(PairPathsFromMeta(meta).value.source) == PairPathsFromMeta(meta)
  {
    if PairPaths(source).Some? {
      var stem := source[..|source| - 3];
      StemOf(source, ".md");
      SwapBack(stem, ".i18n.yaml", ".md");
    }
    if PairPathsFromMeta(meta).Some? {
      var stem := meta[..|meta| - 10];
      StemOf(meta, ".i18n.yaml");
      SwapBack(stem, ".md", ".i18n.yaml");
    }
  }

  /** A record path without a pair is one whose document would be a translation. */
  lemma MetaPathsExactly(meta: string)
    ensures PairPathsFromMeta(meta).Some? <==> EndsWith(meta, ".i18n.yaml") && !EndsWith(meta, ".zh.i18n.yaml")
  {
    if EndsWith(meta, ".i18n.yaml") {
      var stem := meta[..|meta| - 10];
      StemOf(meta, ".i18n.yaml");
      SwapBack(stem, ".i18n.yaml", ".md");
      SameSuffix(stem, ".md", ".zh");
      SameSuffix(stem, ".i18n.yaml", ".zh");
      assert ".zh" + ".md" == ".zh.md" && ".zh" + ".i18n.yaml" == ".zh.i18n.yaml";
    }
  }

  lemma SameSuffix(stem: string, tail: string, suffix: string)
    ensures EndsWith(stem + tail, suffix + tail) <==> EndsWith(stem, suffix)
    ensures EndsWith(stem + tail, tail)
  {
    var s := stem + tail;
    if |suffix| <= |stem| {
      var cut := s[|s| - |suffix + tail|..];
      assert cut == stem[|stem| - |suffix|..] + tail;
      if cut == suffix + tail {
        assert stem[|stem| - |suffix|..] == cut[..|suffix|] == suffix;
      }
    }
    assert s[|s| - |tail|..] == tail;
  }

  /** `basename` of a path that does not end in a separator. */
  function Basename(path: string): string {
    if path == "" || path[|path| - 1] == '/' then "" else Basename(path[..|path| - 1]) + [path[|path| - 1]]
  }

  lemma {:induction false} BasenameAppend(path: string, tail: string)
    requires '/' !in tail
    ensures Basename(path + tail) == Basename(path) + tail
    decreases |tail|
  {
    if tail == "" {
      assert path + tail == path && Basename(path) + tail == Basename(path);
    } else {
      var front, last := tail[..|tail| - 1], tail[|tail| - 1];
      assert (path + tail)[..|path + tail| - 1] == path + front;
      BasenameAppend(path, front);
      assert Basename(path) + front + [last] == Basename(path) + tail;
    }
  }

  // ---------------------------------------------------------------------------
  // Records
  // ---------------------------------------------------------------------------

  datatype Record = Record(sourceHash: string, zhHash: string)
  datatype Entry = Entry(key: string, hash: string)

  predicate IsHash(s: string) {
    |s| == 40 && forall c | c in s :: '0' <= c <= '9' || 'a' <= c <= 'f'
  }

  /** `[^:#]+\.md`. */
  predicate IsKey(s: string) {
    |s| >= 4 && EndsWith(s, ".md") && ':' !in s && '#' !in s
  }

  function Colon(line: string): (at: nat)
    ensures at <= |line| && ':' !in line[..at] && (at < |line| ==> line[at] == ':')
  {
    if line == "" || line[0] == ':' then 0
    else
      var rest := Colon(line[1..]);
      assert line[..rest + 1] == [line[0]] + line[1..][..rest];
      rest + 1
  }

  /** `/^([^:#]+\.md): ([0-9a-f]{40})$/`. A key has no colon, so the first one ends it. */
  function Match(line: string): Option<Entry> {
    var at := Colon(line);
    if at + 2 <= |line| && line[at + 1] == ' ' && IsKey(line[..at]) && IsHash(line[at + 2..]) then
      Some(Entry(line[..at], line[at + 2..]))
    else None
  }

  function EntryLine(key: string, hash: string): string {
    key + ": " + hash
  }

  lemma {:induction false} ColonBehind(key: string, rest: string)
    requires ':' !in key
    ensures Colon(key + ([':'] + rest)) == |key|
  {
    if key != "" {
      assert (key + ([':'] + rest))[1..] == key[1..] + ([':'] + rest);
      ColonBehind(key[1..], rest);
    }
  }

  lemma MatchOfEntry(key: string, hash: string)
    requires IsKey(key) && IsHash(hash)
    ensures Match(EntryLine(key, hash)) == Some(Entry(key, hash))
  {
    var line := EntryLine(key, hash);
    ColonBehind(key, " " + hash);
    assert line == key + ([':'] + (" " + hash));
    assert line[..|key|] == key && line[|key| + 1] == ' ' && line[|key| + 2..] == hash;
  }

  /** Exactly the printed entries match. */
  lemma MatchExactly(line: string, key: string, hash: string)
    ensures Match(line) == Some(Entry(key, hash)) <==> line == EntryLine(key, hash) && IsKey(key) && IsHash(hash)
  {
    if Match(line) == Some(Entry(key, hash)) {
      var at := Colon(line);
      assert line[at..at + 2] == ": ";
      assert line == line[..at] + line[at..at + 2] + line[at + 2..];
    } else if IsKey(key) && IsHash(hash) {
      MatchOfEntry(key, hash);
    }
  }

  predicate Skipped(line: string) {
    line == "" || StartsWith(line, "#")
  }

  type Hashes = map<string, string>

  /** The entries of the lines in order, on top of those already found. */
  function ParseLines(lines: Lines, hashes: Hashes): Option<Hashes> {
    if lines == [] then Some(hashes)
    else if Skipped(lines[0]) then ParseLines(lines[1..], hashes)
    else
      match Match(lines[0])
      case None => None
      case Some(entry) => if entry.key in hashes then None else ParseLines(lines[1..], hashes[entry.key := entry.hash])
  }

  function Expected(hashes: Hashes, paths: Paths): Option<Record> {
    var source, zh := Basename(paths.source), Basename(paths.zh);
    if |hashes| == 2 && source in hashes && zh in hashes then Some(Record(hashes[source], hashes[zh])) else None
  }

  function Parse(content: string, paths: Paths): Option<Record> {
    match ParseLines(Split(content), map[])
    case None => None
    case Some(hashes) => Expected(hashes, paths)
  }

  /** `parseTranslationPairingRecord`. */
  method ParseRecord(content: string, paths: Paths) returns (record: Option<Record>)
    ensures record == Parse(content, paths)
  {
    var hashes: Hashes := map[];
    var lines := Split(content);
    for i := 0 to |lines|
      invariant ParseLines(lines, map[]) == ParseLines(lines[i..], hashes)
    {
      assert lines[i..][1..] == lines[i + 1..];
      if !Skipped(lines[i]) {
        var entry := Match(lines[i]);
        if entry.None? || entry.value.key in hashes { return None; }
        hashes := hashes[entry.value.key := entry.value.hash];
      }
    }
    return Expected(hashes, paths);
  }

  predicate IsComment(line: string) {
    OneLine(line) && line != "" && line[0] == '#'
  }

  type Comment = line: string | IsComment(line) witness "#"

  /** The lines above the entries: comments, then a command that the path is appended to. */
  datatype Header = Header(comments: seq<Comment>, command: Comment)

  function EntryLines(paths: Paths, record: Record): Lines {
    [EntryLine(Basename(paths.source), record.sourceHash), EntryLine(Basename(paths.zh), record.zhHash)]
  }

  /** `renderTranslationPairingRecord`. */
  function Render(header: Header, paths: Paths, record: Record): string {
    JoinWith(header.comments + ([header.command + paths.source] + (EntryLines(paths, record) + [""])), "\n")
  }

  // ---------------------------------------------------------------------------
  // Lines of text put together
  // ---------------------------------------------------------------------------

  /** Text in front of a text lengthens its first line. */
  lemma {:induction false} SplitPrefix(prefix: string, s: string)
    requires OneLine(prefix)
    ensures Split(prefix + s) == [prefix + Split(s)[0]] + Split(s)[1..]
  {
    if prefix == "" {
      assert prefix + s == s && prefix + Split(s)[0] == Split(s)[0];
    } else {
      assert (prefix + s)[1..] == prefix[1..] + s;
      SplitPrefix(prefix[1..], s);
      assert [prefix[0]] + (prefix[1..] + Split(s)[0]) == prefix + Split(s)[0];
    }
  }

  // ---------------------------------------------------------------------------
  // What parsing keeps
  // ---------------------------------------------------------------------------

  /** The lines that are not skipped. */
  function Kept(lines: Lines): Lines {
    if lines == [] then []
    else if Skipped(lines[0]) then Kept(lines[1..])
    else [lines[0]] + Kept(lines[1..])
  }

  lemma {:induction false} KeptAppend(a: Lines, b: Lines)
    ensures Kept(a + b) == Kept(a) + Kept(b)
  {
    if a == [] {
      assert a + b == b;
    } else {
      assert (a + b)[1..] == a[1..] + b;
      KeptAppend(a[1..], b);
    }
  }

  lemma {:induction false} ParseKept(lines: Lines, hashes: Hashes)
    ensures ParseLines(lines, hashes) == ParseLines(Kept(lines), hashes)
    decreases |lines|
  {
    if lines != [] {
      var kept := Kept(lines[1..]);
      if Skipped(lines[0]) {
        ParseKept(lines[1..], hashes);
      } else {
        assert ([lines[0]] + kept)[1..] == kept;
        var entry := Match(lines[0]);
        if entry.Some? { ParseKept(lines[1..], hashes[entry.value.key := entry.value.hash]); }
      }
    }
  }

  predicate Sound(hashes: Hashes) {
    forall key | key in hashes :: IsKey(key) && OneLine(key) && IsHash(hashes[key])
  }

  lemma MatchIsSound(line: string)
    requires OneLine(line) && Match(line).Some?
    ensures IsKey(Match(line).value.key) && OneLine(Match(line).value.key) && IsHash(Match(line).value.hash)
  {
    assert forall c | c in line[..Colon(line)] :: c in line;
  }

  /** Every line that is kept adds an entry. */
  lemma {:induction false} ParseCounts(lines: Lines, hashes: Hashes)
    requires OneLines(lines) && Sound(hashes) && ParseLines(lines, hashes).Some?
    ensures Sound(ParseLines(lines, hashes).value)
    ensures |ParseLines(lines, hashes).value| == |hashes| + |Kept(lines)|
    decreases |lines|
  {
    if lines != [] {
      assert OneLine(lines[0]);
      if Skipped(lines[0]) {
        ParseCounts(lines[1..], hashes);
      } else {
        var entry := Match(lines[0]).value;
        MatchIsSound(lines[0]);
        var more := hashes[entry.key := entry.hash];
        assert more.Keys == hashes.Keys + {entry.key};
        ParseCounts(lines[1..], more);
      }
    }
  }

  /** A parsed record has hashes for both names, which are keys, and exactly two lines are kept. */
  lemma ParsedIsSound(content: string, paths: Paths)
    requires Parse(content, paths).Some?
    ensures var record := Parse(content, paths).value;
      && IsKey(Basename(paths.source)) && OneLine(Basename(paths.source))
      && IsHash(record.sourceHash) && IsHash(record.zhHash)
      && |Kept(Split(content))| == 2
  {
    SplitGivesLines(content);
    ParseCounts(Split(content), map[]);
  }

  // ---------------------------------------------------------------------------
  // Round trips
  // ---------------------------------------------------------------------------

  /** The lines of the path behind its first are skipped: they are empty or comments. */
  predicate Continues(path: string) {
    Kept(Split(path)[1..]) == []
  }

  lemma KeptFirst(line: string, rest: Lines)
    ensures Kept([line] + rest) == if Skipped(line) then Kept(rest) else [line] + Kept(rest)
  {
    assert ([line] + rest)[1..] == rest;
  }

  lemma KeptAcross(a: string, b: string)
    ensures Kept(Split(a + "\n" + b)) == Kept(Split(a)) + Kept(Split(b))
  {
    SplitAcross(a, b);
    KeptAppend(Split(a), Split(b));
  }

  /** What is kept of each of the texts. */
  function KeptEach(texts: Lines): Lines {
    if texts == [] then [] else Kept(Split(texts[0])) + KeptEach(texts[1..])
  }

  lemma {:induction false} KeptEachAppend(a: Lines, b: Lines)
    ensures KeptEach(a + b) == KeptEach(a) + KeptEach(b)
  {
    if a == [] {
      assert a + b == b;
    } else {
      assert (a + b)[1..] == a[1..] + b;
      KeptEachAppend(a[1..], b);
    }
  }

  lemma {:induction false} KeptJoin(texts: Lines)
    requires texts != []
    ensures Kept(Split(JoinWith(texts, "\n"))) == KeptEach(texts)
  {
    if |texts| == 1 {
      assert KeptEach(texts[1..]) == [];
    } else {
      KeptJoin(texts[1..]);
      KeptAcross(texts[0], JoinWith(texts[1..], "\n"));
    }
  }

  lemma {:induction false} CommentsAreSkipped(comments: seq<Comment>)
    ensures KeptEach(comments) == []
  {
    if comments != [] {
      SplitOneLine(comments[0]);
      assert comments[0][..1] == "#";
      KeptFirst(comments[0], []);
      CommentsAreSkipped(comments[1..]);
    }
  }

  lemma KeptCommand(command: string, path: string)
    requires IsComment(command)
    ensures Kept(Split(command + path)) == Kept(Split(path)[1..])
  {
    SplitPrefix(command, path);
    KeptFirst(command + Split(path)[0], Split(path)[1..]);
    assert (command + Split(path)[0])[..1] == "#";
  }

  /** What is kept of a rendered record: the path's continuation lines, and the two entries. */
  lemma RenderedKept(header: Header, paths: Paths, record: Record)
    ensures Kept(Split(Render(header, paths, record)))
         == Kept(Split(paths.source)[1..])
            + (Kept(Split(EntryLine(Basename(paths.source), record.sourceHash)))
               + Kept(Split(EntryLine(Basename(paths.zh), record.zhHash))))
  {
    var entries := EntryLines(paths, record);
    var texts := [header.command + paths.source] + (entries + [""]);
    KeptJoin(header.comments + texts);
    KeptEachAppend(header.comments, texts);
    CommentsAreSkipped(header.comments);
    KeptEachAppend([header.command + paths.source], entries + [""]);
    KeptEachAppend(entries, [""]);
    KeptCommand(header.command, paths.source);
    KeptPair(entries[0], entries[1]);
    KeptOne(header.command + paths.source);
    KeptOne("");
    assert Kept(Split("")) == [];
  }

  lemma KeptOne(text: string)
    ensures KeptEach([text]) == Kept(Split(text))
  {
    assert [text][1..] == [];
  }

  lemma KeptPair(a: string, b: string)
    ensures KeptEach([a, b]) == Kept(Split(a)) + Kept(Split(b))
  {
    assert [a, b][1..] == [b];
    KeptOne(b);
  }

  lemma PairNames(source: string)
    requires PairPaths(source).Some?
    ensures var stem := Basename(source[..|source| - 3]);
      && Basename(source) == stem + ".md" && Basename(PairPaths(source).value.zh) == stem + ".zh.md"
  {
    StemOf(source, ".md");
    StemNames(source[..|source| - 3]);
  }

  lemma StemNames(stem: string)
    ensures Basename(stem + ".md") == Basename(stem) + ".md" && Basename(stem + ".zh.md") == Basename(stem) + ".zh.md"
  {
    BasenameAppend(stem, ".md");
    BasenameAppend(stem, ".zh.md");
  }

  /** The translation's name can be a key whenever the document's can. */
  lemma BothAreKeys(source: string)
    requires PairPaths(source).Some? && IsKey(Basename(source)) && OneLine(Basename(source))
    ensures var zh := Basename(PairPaths(source).value.zh);
      IsKey(zh) && OneLine(zh) && zh != Basename(source)
  {
    PairNames(source);
    StemIsKey(Basename(source[..|source| - 3]));
  }

  lemma StemIsKey(stem: string)
    requires IsKey(stem + ".md") && OneLine(stem + ".md")
    ensures IsKey(stem + ".zh.md") && OneLine(stem + ".zh.md") && stem + ".zh.md" != stem + ".md"
  {
    var zh := stem + ".zh.md";
    assert forall c | c in stem :: c in stem + ".md";
    assert zh[|zh| - 3..] == ".md";
    assert |zh| != |stem + ".md"|;
  }

  lemma EntryIsKept(key: string, hash: string)
    requires IsKey(key) && OneLine(key) && IsHash(hash)
    ensures Kept(Split(EntryLine(key, hash))) == [EntryLine(key, hash)]
  {
    var line := EntryLine(key, hash);
    assert OneLine(line) by {
      assert forall c | c in hash :: c != '\n';
    }
    SplitOneLine(line);
    NotSkipped(key, hash);
    KeptFirst(line, []);
  }

  /** A document whose name can be a key, and hashes. */
  predicate Recordable(source: string, record: Record) {
    IsKey(Basename(source)) && OneLine(Basename(source)) && IsHash(record.sourceHash) && IsHash(record.zhHash)
  }

  lemma RenderedLines(header: Header, source: string, record: Record)
    requires PairPaths(source).Some? && Recordable(source, record)
    ensures var paths := PairPaths(source).value;
      Kept(Split(Render(header, paths, record)))
        == Kept(Split(source)[1..])
           + [EntryLine(Basename(source), record.sourceHash), EntryLine(Basename(paths.zh), record.zhHash)]
  {
    var paths := PairPaths(source).value;
    BothAreKeys(source);
    RenderedKept(header, paths, record);
    EntryIsKept(Basename(source), record.sourceHash);
    EntryIsKept(Basename(paths.zh), record.zhHash);
  }

  lemma TwoEntries(key1: string, hash1: string, key2: string, hash2: string)
    requires IsKey(key1) && IsHash(hash1) && IsKey(key2) && IsHash(hash2) && key1 != key2
    requires !Skipped(EntryLine(key1, hash1)) && !Skipped(EntryLine(key2, hash2))
    ensures ParseLines([EntryLine(key1, hash1), EntryLine(key2, hash2)], map[])
      == Some(map[key1 := hash1, key2 := hash2])
  {
    var line1, line2 := EntryLine(key1, hash1), EntryLine(key2, hash2);
    MatchOfEntry(key1, hash1);
    MatchOfEntry(key2, hash2);
    assert [line1, line2][1..] == [line2] && [line2][1..] == [];
    assert ParseLines([line2], map[key1 := hash1]) == Some(map[key1 := hash1][key2 := hash2]);
  }

  lemma NotSkipped(key: string, hash: string)
    requires IsKey(key)
    ensures !Skipped(EntryLine(key, hash))
  {
    var line := EntryLine(key, hash);
    assert key[0] in key && line[..1] == [key[0]];
  }

  lemma RenderParses(header: Header, source: string, record: Record)
    requires PairPaths(source).Some? && Recordable(source, record) && Continues(source)
    ensures Parse(Render(header, PairPaths(source).value, record), PairPaths(source).value) == Some(record)
  {
    var paths := PairPaths(source).value;
    BothAreKeys(source);
    RenderedLines(header, source, record);
    var key1, key2 := Basename(source), Basename(paths.zh);
    var entries := [EntryLine(key1, record.sourceHash), EntryLine(key2, record.zhHash)];
    assert [] + entries == entries;
    NotSkipped(key1, record.sourceHash);
    NotSkipped(key2, record.zhHash);
    TwoEntries(key1, record.sourceHash, key2, record.zhHash);
    ParseKept(Split(Render(header, paths, record)), map[]);
    ExpectedOfTwo(paths, record);
  }

  lemma ExpectedOfTwo(paths: Paths, record: Record)
    requires Basename(paths.source) != Basename(paths.zh)
    ensures Expected(map[Basename(paths.source) := record.sourceHash, Basename(paths.zh) := record.zhHash], paths)
      == Some(record)
  {
    var hashes := map[Basename(paths.source) := record.sourceHash, Basename(paths.zh) := record.zhHash];
    assert hashes.Keys == {Basename(paths.source), Basename(paths.zh)};
    assert |hashes.Keys| == 2;
  }

  /** A rendered record gives its hashes back exactly when the document's name can be a key,
      both hashes are hashes, and the path's continuation lines, if any, are skipped. */
  lemma RoundTripExactly(header: Header, source: string, record: Record)
    requires PairPaths(source).Some?
    ensures Parse(Render(header, PairPaths(source).value, record), PairPaths(source).value) == Some(record)
      <==> Recordable(source, record) && Continues(source)
  {
    var paths := PairPaths(source).value;
    if Parse(Render(header, paths, record), paths) == Some(record) {
      ParsedIsSound(Render(header, paths, record), paths);
      RenderedLines(header, source, record);
      assert |Kept(Split(source)[1..])| == 0;
    } else if Recordable(source, record) && Continues(source) {
      RenderParses(header, source, record);
    }
  }

  /** Whatever was parsed, rendering and parsing it again gives the same, under the path's condition. */
  lemma ParseRenderParse(header: Header, content: string, source: string)
    requires PairPaths(source).Some? && Parse(content, PairPaths(source).value).Some?
    ensures var paths := PairPaths(source).value;
      var record := Parse(content, paths).value;
      Parse(Render(header, paths, record), paths) == Parse(content, paths) <==> Continues(source)
  {
    var paths := PairPaths(source).value;
    ParsedIsSound(content, paths);
    RoundTripExactly(header, source, Parse(content, paths).value);
  }

  /** A path without line breaks continues nowhere. */
  lemma OneLinePathContinues(source: string)
    requires OneLine(source)
    ensures Continues(source)
  {
    SplitOneLine(source);
  }
}
