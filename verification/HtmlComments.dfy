/**
 * Comment-aware prose lines of scripts/markdown.ts. HTML comments are found as offset
 * ranges, cut up by line, and subtracted from each line; the reference marks every
 * character as shown or hidden. The parser's HTML and code nodes are inputs.
 */
module HtmlComments {
  import opened Basics
  import opened Texts
  import opened Sorting

  // ---------------------------------------------------------------------------
  // Comments, character by character
  // ---------------------------------------------------------------------------

  predicate At(s: string, pattern: string, i: nat) {
    i + |pattern| <= |s| && s[i..i + |pattern|] == pattern
  }

  /** The pattern stands at `i`, at the very end of the text as well. */
  lemma AtExactly(s: string, pattern: string, i: nat)
    ensures At(s, pattern, i) <==> exists front, rest :: |front| == i && s == front + pattern + rest
  {
    if At(s, pattern, i) {
      assert s == s[..i] + pattern + s[i + |pattern|..];
    }
    forall front: string, rest | |front| == i && s == front + pattern + rest ensures At(s, pattern, i) {
      assert s[i..i + |pattern|] == pattern;
    }
  }

  /** Is character `k` shown, when text starts at `i`? */
  predicate ShownFrom(s: string, i: nat, k: nat)
    requires i <= k < |s|
    decreases |s| - i
  {
    if At(s, "<!--", i) then k >= i + 4 && ShownInComment(s, i + 4, k)
    else k == i || ShownFrom(s, i + 1, k)
  }

  /** Is character `k` shown, when a comment's inside starts at `i`? */
  predicate ShownInComment(s: string, i: nat, k: nat)
    requires i <= k < |s|
    decreases |s| - i
  {
    if At(s, "-->", i) then k >= i + 3 && ShownFrom(s, i + 3, k)
    else k > i && ShownInComment(s, i + 1, k)
  }

  /** `indexOf(pattern, from)`. */
  function IndexOf(s: string, pattern: string, from: nat): (found: Option<nat>)
    requires from <= |s|
    ensures found.Some? ==> from <= found.value && At(s, pattern, found.value)
    ensures found.Some? ==> forall i | from <= i < found.value :: !At(s, pattern, i)
    ensures found.None? ==> forall i | from <= i <= |s| :: !At(s, pattern, i)
    decreases |s| - from
  {
    if At(s, pattern, from) then Some(from)
    else if from == |s| then None
    else IndexOf(s, pattern, from + 1)
  }

  datatype Range = Range(start: nat, end: nat)

  ghost predicate Covered(ranges: seq<Range>, k: nat) {
    exists r :: r in ranges && r.start <= k < r.end
  }

  lemma CoveredMore(ranges: seq<Range>, more: Range, k: nat)
    ensures Covered(ranges + [more], k) <==> Covered(ranges, k) || more.start <= k < more.end
  {
    if Covered(ranges, k) {
      var r :| r in ranges && r.start <= k < r.end;
      assert r in ranges + [more];
    }
    if more.start <= k < more.end {
      assert more in ranges + [more];
    }
  }

  lemma {:induction false} TextIsShown(s: string, i: nat, stop: nat, k: nat)
    requires i <= stop && i <= k < |s|
    requires forall j | i <= j < stop :: !At(s, "<!--", j)
    ensures if k < stop then ShownFrom(s, i, k) else ShownFrom(s, i, k) == ShownFrom(s, stop, k)
    decreases stop - i
  {
    if i < stop && k > i { TextIsShown(s, i + 1, stop, k); }
  }

  lemma {:induction false} InsideIsHidden(s: string, i: nat, stop: nat, k: nat)
    requires i <= stop && i <= k < |s|
    requires forall j | i <= j < stop :: !At(s, "-->", j)
    ensures if k < stop then !ShownInComment(s, i, k) else ShownInComment(s, i, k) == ShownInComment(s, stop, k)
    decreases stop - i
  {
    if i < stop && k > i { InsideIsHidden(s, i + 1, stop, k); }
  }

  /** Up to `cursor` the ranges hide what is hidden; there the text goes on. */
  ghost predicate ScannedTo(s: string, ranges: seq<Range>, cursor: nat) {
    && cursor <= |s|
    && (forall r | r in ranges :: r.start < r.end <= cursor)
    && (forall k | 0 <= k < cursor :: ShownFrom(s, 0, k) <==> !Covered(ranges, k))
    && (forall k | cursor <= k < |s| :: ShownFrom(s, 0, k) == ShownFrom(s, cursor, k))
  }

  /** Behind the close of a comment, or the end of the text when it has none. */
  function CommentEnd(s: string, start: nat): (end: nat)
    requires At(s, "<!--", start)
    ensures start + 4 <= end <= |s|
  {
    var close := IndexOf(s, "-->", start + 4);
    if close.Some? then close.value + 3 else |s|
  }

  lemma CommentIsHidden(s: string, start: nat, k: nat)
    requires At(s, "<!--", start) && start <= k < |s|
    ensures if k < CommentEnd(s, start) then !ShownFrom(s, start, k)
            else ShownFrom(s, start, k) == ShownFrom(s, CommentEnd(s, start), k)
  {
    if k >= start + 4 {
      var close := IndexOf(s, "-->", start + 4);
      InsideIsHidden(s, start + 4, if close.Some? then close.value else |s|, k);
    }
  }

  lemma ScanComment(s: string, ranges: seq<Range>, cursor: nat, start: nat)
    requires ScannedTo(s, ranges, cursor) && IndexOf(s, "<!--", cursor) == Some(start)
    ensures ScannedTo(s, ranges + [Range(start, CommentEnd(s, start))], CommentEnd(s, start))
  {
    var more := Range(start, CommentEnd(s, start));
    forall k | 0 <= k < |s|
      ensures if k < more.end then ShownFrom(s, 0, k) <==> !Covered(ranges + [more], k)
              else ShownFrom(s, 0, k) == ShownFrom(s, more.end, k)
    {
      CoveredMore(ranges, more, k);
      if k >= cursor { TextIsShown(s, cursor, start, k); }
      if k >= start { CommentIsHidden(s, start, k); }
      if k >= cursor { assert !Covered(ranges, k); }
    }
  }

  lemma ScanRest(s: string, ranges: seq<Range>, cursor: nat)
    requires ScannedTo(s, ranges, cursor) && IndexOf(s, "<!--", cursor).None?
    ensures ScannedTo(s, ranges, |s|)
  {
    forall k | cursor <= k < |s| ensures ShownFrom(s, 0, k) && !Covered(ranges, k) {
      TextIsShown(s, cursor, |s|, k);
    }
  }

  /** The ranges hide exactly the characters inside comments. */
  ghost predicate Exact(s: string, ranges: seq<Range>) {
    && (forall r | r in ranges :: r.start < r.end <= |s|)
    && forall k | 0 <= k < |s| :: ShownFrom(s, 0, k) <==> !Covered(ranges, k)
  }

  /** The comments of one HTML node. */
  method FindComments(value: string) returns (ranges: seq<Range>)
    ensures Exact(value, ranges)
  {
    ranges := [];
    var cursor := 0;
    while true
      invariant ScannedTo(value, ranges, cursor)
      decreases |value| - cursor
    {
      var start := IndexOf(value, "<!--", cursor);
      if start.None? {
        ScanRest(value, ranges, cursor);
        return;
      }
      ScanComment(value, ranges, cursor, start.value);
      var close := IndexOf(value, "-->", start.value + 4);
      var end := if close.None? then |value| else close.value + 3;
      ranges := ranges + [Range(start.value, end)];
      cursor := end;
    }
  }

  // ---------------------------------------------------------------------------
  // Comments of a document
  // ---------------------------------------------------------------------------

  /** An HTML node: where its text starts, and the text. */
  datatype Html = Html(offset: nat, value: string)

  predicate HiddenBy(node: Html, position: nat) {
    node.offset <= position < node.offset + |node.value| && !ShownFrom(node.value, 0, position - node.offset)
  }

  /** The position is inside a comment of some node. */
  ghost predicate Hidden(nodes: seq<Html>, position: nat) {
    exists node :: node in nodes && HiddenBy(node, position)
  }

  lemma HiddenMore(nodes: seq<Html>, i: nat, position: nat)
    requires i < |nodes|
    ensures Hidden(nodes[..i + 1], position) <==> Hidden(nodes[..i], position) || HiddenBy(nodes[i], position)
  {
    assert nodes[..i + 1] == nodes[..i] + [nodes[i]];
    if Hidden(nodes[..i], position) {
      var node :| node in nodes[..i] && HiddenBy(node, position);
      assert node in nodes[..i + 1];
    }
    if HiddenBy(nodes[i], position) {
      assert nodes[i] in nodes[..i + 1];
    }
  }

  function ShiftedRanges(ranges: seq<Range>, offset: nat): (shifted: seq<Range>)
    ensures |shifted| == |ranges|
  {
    seq(|ranges|, i requires 0 <= i < |ranges| => Range(offset + ranges[i].start, offset + ranges[i].end))
  }

  lemma ShiftedCover(ranges: seq<Range>, offset: nat, k: int)
    ensures k >= 0 ==> (Covered(ShiftedRanges(ranges, offset), k) <==> k >= offset && Covered(ranges, k - offset))
  {
    if k >= 0 {
      if Covered(ShiftedRanges(ranges, offset), k) {
        var r :| r in ShiftedRanges(ranges, offset) && r.start <= k < r.end;
        var i: nat :| i < |ranges| && ShiftedRanges(ranges, offset)[i] == r;
        assert ranges[i] in ranges;
      }
      if k >= offset && Covered(ranges, k - offset) {
        var r :| r in ranges && r.start <= k - offset < r.end;
        var i: nat :| i < |ranges| && ranges[i] == r;
        assert ShiftedRanges(ranges, offset)[i] in ShiftedRanges(ranges, offset);
      }
    }
  }

  lemma CoveredBoth(a: seq<Range>, b: seq<Range>, k: nat)
    ensures Covered(a + b, k) <==> Covered(a, k) || Covered(b, k)
  {
    if Covered(a, k) {
      var r :| r in a && r.start <= k < r.end;
      assert r in a + b;
    }
    if Covered(b, k) {
      var r :| r in b && r.start <= k < r.end;
      assert r in a + b;
    }
  }

  lemma NodeIsCovered(node: Html, ranges: seq<Range>, k: nat)
    requires Exact(node.value, ranges)
    ensures Covered(ShiftedRanges(ranges, node.offset), k) <==> HiddenBy(node, k)
  {
    ShiftedCover(ranges, node.offset, k);
  }

  /** The ranges are those of the nodes' comments. */
  ghost predicate Comments(nodes: seq<Html>, comments: seq<Range>) {
    forall k: nat :: Covered(comments, k) <==> Hidden(nodes, k)
  }

  method AllComments(nodes: seq<Html>) returns (comments: seq<Range>)
    ensures Comments(nodes, comments)
  {
    comments := [];
    for i := 0 to |nodes|
      invariant Comments(nodes[..i], comments)
    {
      var ranges := FindComments(nodes[i].value);
      ghost var was := comments;
      comments := comments + ShiftedRanges(ranges, nodes[i].offset);
      forall k: nat ensures Covered(comments, k) <==> Hidden(nodes[..i + 1], k) {
        CoveredBoth(was, ShiftedRanges(ranges, nodes[i].offset), k);
        NodeIsCovered(nodes[i], ranges, k);
        HiddenMore(nodes, i, k);
      }
    }
    assert nodes[..|nodes|] == nodes;
  }

  // ---------------------------------------------------------------------------
  // Lines
  // ---------------------------------------------------------------------------

  function LineStart(lines: Lines, i: nat): nat
    requires i <= |lines|
  {
    if i == 0 then 0 else LineStart(lines, i - 1) + |lines[i - 1]| + 1
  }

  /** A longer first line moves the later ones. */
  lemma {:induction false} LongerFirst(c: char, rest: Lines, i: nat)
    requires 0 < i <= |rest|
    ensures LineStart([[c] + rest[0]] + rest[1..], i) == LineStart(rest, i) + 1
  {
    if i > 1 { LongerFirst(c, rest, i - 1); }
  }

  lemma {:induction false} EmptyFirst(rest: Lines, i: nat)
    requires i <= |rest|
    ensures LineStart([""] + rest, i + 1) == LineStart(rest, i) + 1
  {
    if i > 0 { EmptyFirst(rest, i - 1); }
  }

  /** Line `i` stands in the source at its offset. */
  lemma {:induction false} LineStands(source: string, i: nat)
    requires i < |Split(source)|
    ensures LineStart(Split(source), i) + |Split(source)[i]| <= |source|
    ensures forall k | 0 <= k < |Split(source)[i]| :: source[LineStart(Split(source), i) + k] == Split(source)[i][k]
  {
    if source != "" {
      var rest := Split(source[1..]);
      if source[0] == '\n' {
        if i > 0 {
          LineStands(source[1..], i - 1);
          EmptyFirst(rest, i - 1);
        }
      } else {
        LineStands(source[1..], i);
        if i > 0 { LongerFirst(source[0], rest, i); }
      }
    }
  }

  /** A comment covers part of the line, or the break behind an empty one. */
  ghost predicate Touched(comments: seq<Range>, offset: nat, length: nat) {
    (exists k :: offset <= k < offset + length && Covered(comments, k)) || (length == 0 && Covered(comments, offset))
  }

  /** The columns of a line that comments cover. */
  ghost predicate Columns(comments: seq<Range>, offset: nat, length: nat, ranges: seq<Range>) {
    && (forall r | r in ranges :: r.start <= r.end <= length)
    && (forall k | 0 <= k < length :: Covered(ranges, k) <==> Covered(comments, offset + k))
    && (ranges != [] <==> Touched(comments, offset, length))
  }

  /** What one comment adds to a line's ranges. */
  function Piece(comment: Range, offset: nat, length: nat): Option<Range> {
    var from, end := Larger(comment.start, offset), Smaller(comment.end, offset + length);
    if from < end || (length == 0 && comment.start <= offset && comment.end > offset) then
      Some(Range(from - offset, end - offset))
    else None
  }

  lemma TouchedMore(comments: seq<Range>, more: Range, offset: nat, length: nat)
    ensures Touched(comments + [more], offset, length)
      <==> Touched(comments, offset, length) || Piece(more, offset, length).Some?
  {
    forall k: nat ensures Covered(comments + [more], k) <==> Covered(comments, k) || more.start <= k < more.end {
      CoveredMore(comments, more, k);
    }
    if Piece(more, offset, length).Some? && length > 0 {
      assert Covered(comments + [more], Larger(more.start, offset));
    }
  }

  lemma ColumnsMore(comments: seq<Range>, more: Range, offset: nat, length: nat, ranges: seq<Range>)
    requires Columns(comments, offset, length, ranges)
    ensures var piece := Piece(more, offset, length);
      Columns(comments + [more], offset, length, if piece.Some? then ranges + [piece.value] else ranges)
  {
    var piece := Piece(more, offset, length);
    TouchedMore(comments, more, offset, length);
    forall k | 0 <= k < length
      ensures Covered(comments + [more], offset + k)
        <==> Covered(ranges, k) || (piece.Some? && piece.value.start <= k < piece.value.end)
    {
      CoveredMore(comments, more, offset + k);
    }
    if piece.Some? {
      forall k | 0 <= k < length
        ensures Covered(ranges + [piece.value], k) <==> Covered(ranges, k) || piece.value.start <= k < piece.value.end
      {
        CoveredMore(ranges, piece.value, k);
      }
    }
  }

  method LineColumns(comments: seq<Range>, offset: nat, length: nat) returns (ranges: seq<Range>)
    ensures Columns(comments, offset, length, ranges)
  {
    ranges := [];
    for i := 0 to |comments|
      invariant Columns(comments[..i], offset, length, ranges)
    {
      ColumnsMore(comments[..i], comments[i], offset, length, ranges);
      assert comments[..i + 1] == comments[..i] + [comments[i]];
      var piece := Piece(comments[i], offset, length);
      if piece.Some? { ranges := ranges + [piece.value]; }
    }
    assert comments[..|comments|] == comments;
  }

  type ColumnMap = map<nat, seq<Range>>

  function Entry(columns: ColumnMap, line: nat): seq<Range> {
    if line in columns then columns[line] else []
  }

  /** A comment hides part of line `i`, or the break behind it when it is empty. */
  ghost predicate Commented(nodes: seq<Html>, lines: Lines, i: nat)
    requires i < |lines|
  {
    var offset := LineStart(lines, i);
    || (exists p :: offset <= p < offset + |lines[i]| && Hidden(nodes, p))
    || (lines[i] == "" && Hidden(nodes, offset))
  }

  /** The ranges are the line's hidden columns; there are some exactly when a comment touches it. */
  ghost predicate HiddenColumns(nodes: seq<Html>, lines: Lines, i: nat, ranges: seq<Range>)
    requires i < |lines|
  {
    && (forall r | r in ranges :: r.start <= r.end <= |lines[i]|)
    && (forall k | 0 <= k < |lines[i]| :: Covered(ranges, k) <==> Hidden(nodes, LineStart(lines, i) + k))
    && (ranges != [] <==> Commented(nodes, lines, i))
  }

  lemma TouchedIsCommented(nodes: seq<Html>, comments: seq<Range>, lines: Lines, i: nat)
    requires i < |lines| && Comments(nodes, comments)
    ensures Touched(comments, LineStart(lines, i), |lines[i]|) <==> Commented(nodes, lines, i)
  {
    var offset := LineStart(lines, i);
    if k :| offset <= k < offset + |lines[i]| && Covered(comments, k) { assert Hidden(nodes, k); }
    if k :| offset <= k < offset + |lines[i]| && Hidden(nodes, k) { assert Covered(comments, k); }
  }

  lemma ColumnsAreHidden(nodes: seq<Html>, comments: seq<Range>, lines: Lines, i: nat, ranges: seq<Range>)
    requires i < |lines| && Comments(nodes, comments)
    requires Columns(comments, LineStart(lines, i), |lines[i]|, ranges)
    ensures HiddenColumns(nodes, lines, i, ranges)
  {
    TouchedIsCommented(nodes, comments, lines, i);
    forall k | 0 <= k < |lines[i]| ensures Covered(ranges, k) <==> Hidden(nodes, LineStart(lines, i) + k) {
      assert Covered(ranges, k) <==> Covered(comments, LineStart(lines, i) + k);
    }
  }

  /** The map's entry for a line, counted from one; an untouched line has no entry. */
  ghost predicate HasColumns(nodes: seq<Html>, lines: Lines, columns: ColumnMap, i: nat)
    requires i < |lines|
  {
    && HiddenColumns(nodes, lines, i, Entry(columns, i + 1))
    && (i + 1 in columns ==> columns[i + 1] != [])
  }

  /** `htmlCommentRanges`. */
  method HtmlCommentRanges(nodes: seq<Html>, lines: Lines) returns (columns: ColumnMap)
    ensures forall i | 0 <= i < |lines| :: HasColumns(nodes, lines, columns, i)
  {
    var comments := AllComments(nodes);
    columns := map[];
    var lineOffset := 0;
    for i := 0 to |lines|
      invariant lineOffset == LineStart(lines, i)
      invariant forall line | line in columns :: line <= i
      invariant forall j | 0 <= j < i :: HasColumns(nodes, lines, columns, j)
    {
      var ranges := LineColumns(comments, lineOffset, |lines[i]|);
      ColumnsAreHidden(nodes, comments, lines, i, ranges);
      ghost var was := columns;
      if ranges != [] { columns := columns[i + 1 := ranges]; }
      assert HasColumns(nodes, lines, columns, i);
      forall j | 0 <= j < i ensures HasColumns(nodes, lines, columns, j) {
        assert HasColumns(nodes, lines, was, j);
        assert Entry(columns, j + 1) == Entry(was, j + 1);
      }
      lineOffset := lineOffset + |lines[i]| + 1;
    }
  }

  // ---------------------------------------------------------------------------
  // What is left of a line
  // ---------------------------------------------------------------------------

  /** `(left, right) => left[0] - right[0]`. */
  function ByStart(): Order<Range> {
    (a: Range, b: Range) => a.start <= b.start
  }

  /** The uncovered characters from column `from` to column `end`. */
  ghost function Uncovered(raw: string, ranges: seq<Range>, from: nat, end: nat): string
    requires from <= end <= |raw|
    decreases end - from
  {
    if from == end then ""
    else Uncovered(raw, ranges, from, end - 1) + if Covered(ranges, end - 1) then "" else [raw[end - 1]]
  }

  lemma {:induction false} UncoveredSlice(raw: string, ranges: seq<Range>, from: nat, mid: nat, end: nat)
    requires from <= mid <= end <= |raw|
    requires forall k | mid <= k < end :: !Covered(ranges, k)
    ensures Uncovered(raw, ranges, from, end) == Uncovered(raw, ranges, from, mid) + raw[mid..end]
    decreases end
  {
    if mid < end {
      UncoveredSlice(raw, ranges, from, mid, end - 1);
      assert raw[mid..end] == raw[mid..end - 1] + [raw[end - 1]];
    }
  }

  lemma {:induction false} UncoveredSkip(raw: string, ranges: seq<Range>, from: nat, mid: nat, end: nat)
    requires from <= mid <= end <= |raw|
    requires forall k | mid <= k < end :: Covered(ranges, k)
    ensures Uncovered(raw, ranges, from, end) == Uncovered(raw, ranges, from, mid)
    decreases end
  {
    if mid < end { UncoveredSkip(raw, ranges, from, mid, end - 1); }
  }

  /** `raw.slice(from, end)`: nothing when the columns are reversed. */
  function Slice(raw: string, from: nat, end: nat): string
    requires from <= |raw| && end <= |raw|
  {
    if from <= end then raw[from..end] else ""
  }

  /** After the ranges in front, everything visible up to the cursor is collected. */
  ghost predicate Collected(raw: string, all: seq<Range>, rest: seq<Range>, cursor: nat, visible: string) {
    && cursor <= |raw|
    && (forall r | r in all :: r.start <= r.end <= |raw|)
    && (forall r | r in rest :: r in all)
    && (forall r | r in all :: r in rest || r.end <= cursor)
    && Ascends(rest, ByStart())
    && visible == Uncovered(raw, all, 0, cursor)
  }

  lemma CollectNext(raw: string, all: seq<Range>, rest: seq<Range>, cursor: nat, visible: string)
    requires Collected(raw, all, rest, cursor, visible) && rest != []
    ensures Collected(raw, all, rest[1..], Larger(cursor, rest[0].end), visible + Slice(raw, cursor, rest[0].start))
  {
    var r := rest[0];
    var mid := Larger(cursor, r.start);
    assert r in all;
    forall k | cursor <= k < mid ensures !Covered(all, k) {
      forall q | q in all ensures !(q.start <= k < q.end) {
        assert q in rest ==> q == r || q in rest[1..];
      }
    }
    UncoveredSlice(raw, all, 0, cursor, mid);
    if mid < r.end {
      UncoveredSkip(raw, all, 0, mid, r.end);
    }
    assert Slice(raw, cursor, r.start) == raw[cursor..mid];
    if r.end <= cursor { assert mid == cursor; }
  }

  lemma CollectRest(raw: string, all: seq<Range>, cursor: nat, visible: string)
    requires Collected(raw, all, [], cursor, visible)
    ensures visible + raw[cursor..] == Uncovered(raw, all, 0, |raw|)
  {
    UncoveredSlice(raw, all, 0, cursor, |raw|);
    assert raw[cursor..] == raw[cursor..|raw|];
  }

  lemma {:induction false} UncoveredText(raw: string, ranges: seq<Range>, end: nat)
    requires end <= |raw|
    ensures (exists c :: c in Uncovered(raw, ranges, 0, end) && !IsSpace(c))
      <==> exists k: nat :: k < end && !IsSpace(raw[k]) && !Covered(ranges, k)
    decreases end
  {
    if end > 0 { UncoveredText(raw, ranges, end - 1); }
  }

  lemma {:induction false} TrimEndIsEmpty(s: string)
    ensures TrimEnd(s) != "" <==> exists c :: c in s && !IsSpace(c)
  {
    if s != "" {
      var front, c := s[..|s| - 1], s[|s| - 1];
      assert s == front + [c];
      if IsSpace(c) { TrimEndIsEmpty(front); }
    }
  }

  lemma {:induction false} TrimIsEmpty(s: string)
    ensures Trim(s) != "" <==> exists c :: c in s && !IsSpace(c)
  {
    if s != "" && IsSpace(s[0]) {
      TrimIsEmpty(s[1..]);
      assert s == [s[0]] + s[1..];
    } else {
      TrimEndIsEmpty(s);
    }
  }

  /** Some character of the line is neither white space nor covered. */
  ghost predicate HasText(raw: string, ranges: seq<Range>) {
    exists k: nat :: k < |raw| && !IsSpace(raw[k]) && !Covered(ranges, k)
  }

  /** `hasRenderedTextOutsideComments`. */
  method HasRenderedText(raw: string, ranges: Option<seq<Range>>) returns (rendered: bool)
    requires ranges.Some? ==> forall r | r in ranges.value :: r.start <= r.end <= |raw|
    ensures rendered <==> ranges.None? || HasText(raw, ranges.value)
  {
    if ranges.None? { return true; }
    var sorted := Sorted(ranges.value, ByStart());
    SortedAscends(ranges.value, ByStart());
    forall r ensures r in sorted <==> r in ranges.value {
      SortedHas(ranges.value, ByStart(), r);
    }
    var rest, visible := sorted, "";
    var cursor: nat := 0;
    while rest != []
      invariant Collected(raw, sorted, rest, cursor, visible)
      decreases |rest|
    {
      CollectNext(raw, sorted, rest, cursor, visible);
      assert rest[0] in sorted;
      visible := visible + Slice(raw, cursor, rest[0].start);
      cursor := Larger(cursor, rest[0].end);
      rest := rest[1..];
    }
    CollectRest(raw, sorted, cursor, visible);
    visible := visible + raw[cursor..];
    UncoveredText(raw, sorted, |raw|);
    TrimIsEmpty(visible);
    forall k ensures Covered(sorted, k) <==> Covered(ranges.value, k) {
      SameRanges(sorted, ranges.value, k);
    }
    return Trim(visible) != "";
  }

  lemma SameRanges(a: seq<Range>, b: seq<Range>, k: nat)
    requires forall r :: r in a <==> r in b
    ensures Covered(a, k) <==> Covered(b, k)
  {
  }

  // ---------------------------------------------------------------------------
  // Prose lines
  // ---------------------------------------------------------------------------

  /** A code node's first and last line, counted from one. */
  datatype Code = Code(startLine: nat, endLine: nat)
  datatype ProseLine = ProseLine(index: nat, raw: string)

  ghost predicate InCode(codes: seq<Code>, line: nat) {
    exists code :: code in codes && code.startLine <= line <= code.endLine
  }

  /** Some character of line `i` is neither white space nor inside a comment. */
  ghost predicate ShowsText(source: string, nodes: seq<Html>, lines: Lines, i: nat)
    requires i < |lines|
  {
    exists p :: LineStart(lines, i) <= p < LineStart(lines, i) + |lines[i]| && p < |source|
      && !IsSpace(source[p]) && !Hidden(nodes, p)
  }

  /** A line outside code survives unless comments touch it and leave only white space. */
  ghost predicate Survives(source: string, lines: Lines, nodes: seq<Html>, codes: seq<Code>, i: nat)
    requires i < |lines|
  {
    !InCode(codes, i + 1) && (Commented(nodes, lines, i) ==> ShowsText(source, nodes, lines, i))
  }

  /** Line `i` is the source's text at its offset. */
  ghost predicate Stands(source: string, lines: Lines, i: nat)
    requires i < |lines|
  {
    && LineStart(lines, i) + |lines[i]| <= |source|
    && forall k | 0 <= k < |lines[i]| :: source[LineStart(lines, i) + k] == lines[i][k]
  }

  /** Subtracting a line's columns leaves text exactly when it shows some. */
  lemma TextIsShownText(source: string, lines: Lines, nodes: seq<Html>, i: nat, ranges: seq<Range>)
    requires i < |lines| && Stands(source, lines, i) && HiddenColumns(nodes, lines, i, ranges)
    ensures HasText(lines[i], ranges) <==> ShowsText(source, nodes, lines, i)
  {
    forall k: nat | k < |lines[i]| ensures SameAt(source, lines, nodes, i, ranges, k) {
      assert Covered(ranges, k) <==> Hidden(nodes, LineStart(lines, i) + k);
    }
    PointwiseShows(source, lines, nodes, i, ranges);
  }

  /** Column `k` holds the source's character and is covered exactly when that is hidden. */
  ghost predicate SameAt(source: string, lines: Lines, nodes: seq<Html>, i: nat, ranges: seq<Range>, k: nat)
    requires i < |lines| && k < |lines[i]|
  {
    var p := LineStart(lines, i) + k;
    p < |source| && source[p] == lines[i][k] && (Covered(ranges, k) <==> Hidden(nodes, p))
  }

  lemma PointwiseShows(source: string, lines: Lines, nodes: seq<Html>, i: nat, ranges: seq<Range>)
    requires i < |lines|
    requires forall k: nat | k < |lines[i]| :: SameAt(source, lines, nodes, i, ranges, k)
    ensures HasText(lines[i], ranges) <==> ShowsText(source, nodes, lines, i)
  {
    var raw, offset := lines[i], LineStart(lines, i);
    if HasText(raw, ranges) {
      var k: nat :| k < |raw| && !IsSpace(raw[k]) && !Covered(ranges, k);
      assert SameAt(source, lines, nodes, i, ranges, k);
    }
    if ShowsText(source, nodes, lines, i) {
      var p: nat :| offset <= p < offset + |raw| && p < |source| && !IsSpace(source[p]) && !Hidden(nodes, p);
      assert SameAt(source, lines, nodes, i, ranges, p - offset);
    }
  }

  method FencedLines(codes: seq<Code>) returns (fenced: set<nat>)
    ensures forall line :: line in fenced <==> InCode(codes, line)
  {
    fenced := {};
    for i := 0 to |codes|
      invariant forall line :: line in fenced <==> InCode(codes[..i], line)
    {
      ghost var was := fenced;
      var line := codes[i].startLine;
      while line <= codes[i].endLine
        invariant line >= codes[i].startLine
        invariant forall n :: n in fenced <==> n in was || (codes[i].startLine <= n < line && n <= codes[i].endLine)
      {
        fenced := fenced + {line};
        line := line + 1;
      }
      assert codes[..i + 1] == codes[..i] + [codes[i]];
      forall n: nat ensures n in fenced <==> InCode(codes[..i + 1], n) {
        if InCode(codes[..i], n) {
          var code :| code in codes[..i] && code.startLine <= n <= code.endLine;
          assert code in codes[..i + 1];
        }
        if codes[i].startLine <= n <= codes[i].endLine { assert codes[i] in codes[..i + 1]; }
      }
    }
    assert codes[..|codes|] == codes;
  }

  ghost predicate Rises(kept: seq<ProseLine>) {
    forall a, b | 0 <= a < b < |kept| :: kept[a].index < kept[b].index
  }

  /** The kept lines are the surviving ones below `i`, in order. */
  ghost predicate Keeps(source: string, lines: Lines, nodes: seq<Html>, codes: seq<Code>, kept: seq<ProseLine>, i: nat)
    requires i <= |lines|
  {
    && Rises(kept)
    && (forall line | line in kept :: 0 < line.index <= i && line.raw == lines[line.index - 1]
          && Survives(source, lines, nodes, codes, line.index - 1))
    && (forall j | 0 <= j < i && Survives(source, lines, nodes, codes, j) :: ProseLine(j + 1, lines[j]) in kept)
  }

  lemma KeepsNext(source: string, lines: Lines, nodes: seq<Html>, codes: seq<Code>, kept: seq<ProseLine>, i: nat)
    requires i < |lines| && Keeps(source, lines, nodes, codes, kept, i)
    ensures var more := kept + if Survives(source, lines, nodes, codes, i) then [ProseLine(i + 1, lines[i])] else [];
      Keeps(source, lines, nodes, codes, more, i + 1)
  {
    if !Survives(source, lines, nodes, codes, i) { assert kept + [] == kept; }
  }

  /** Does line `i` outside code survive? */
  method KeepsLine(ghost source: string, lines: Lines, ghost nodes: seq<Html>, columns: ColumnMap, i: nat)
    returns (rendered: bool)
    requires i < |lines| && Stands(source, lines, i) && HasColumns(nodes, lines, columns, i)
    ensures rendered <==> (Commented(nodes, lines, i) ==> ShowsText(source, nodes, lines, i))
  {
    TextIsShownText(source, lines, nodes, i, Entry(columns, i + 1));
    rendered := HasRenderedText(lines[i], if i + 1 in columns then Some(columns[i + 1]) else None);
  }

  /** `markdownProseLines`. */
  method MarkdownProseLines(source: string, nodes: seq<Html>, codes: seq<Code>) returns (kept: seq<ProseLine>)
    ensures Keeps(source, Split(source), nodes, codes, kept, |Split(source)|)
  {
    var lines := Split(source);
    forall i | 0 <= i < |lines| ensures Stands(source, lines, i) {
      LineStands(source, i);
    }
    kept := FilterLines(source, lines, nodes, codes);
  }

  method FilterLines(source: string, lines: Lines, nodes: seq<Html>, codes: seq<Code>) returns (kept: seq<ProseLine>)
    requires forall i | 0 <= i < |lines| :: Stands(source, lines, i)
    ensures Keeps(source, lines, nodes, codes, kept, |lines|)
  {
    var columns := HtmlCommentRanges(nodes, lines);
    var fenced := FencedLines(codes);
    kept := [];
    for i := 0 to |lines|
      invariant Keeps(source, lines, nodes, codes, kept, i)
    {
      KeepsNext(source, lines, nodes, codes, kept, i);
      var rendered := false;
      if i + 1 !in fenced {
        rendered := KeepsLine(source, lines, nodes, columns, i);
      }
      assert rendered <==> Survives(source, lines, nodes, codes, i);
      kept := kept + if rendered then [ProseLine(i + 1, lines[i])] else [];
    }
  }
}
