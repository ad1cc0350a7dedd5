/**
 * The mechanical update of scripts/translation-brief.ts: when only code blocks of a
 * document changed, the same change is spliced into its translation. The Markdown
 * parser's code spans are inputs, ordered and in range.
 */
module TranslationBrief {
  import opened Basics
  import opened Texts

  // ---------------------------------------------------------------------------
  // Lines
  // ---------------------------------------------------------------------------

  /** `replaceAll('\r\n', '\n')`. */
  function Unified(s: string): string {
    if s == "" then ""
    else if |s| >= 2 && s[0] == '\r' && s[1] == '\n' then "\n" + Unified(s[2..])
    else [s[0]] + Unified(s[1..])
  }

  function LinesOf(markdown: string): Lines {
    var lines := Split(Unified(markdown));
    if lines[|lines| - 1] == "" then lines[..|lines| - 1] else lines
  }

  /** `${lines.join('\n')}\n`. */
  function Text(lines: Lines): string {
    if lines == [] then "\n"
    else if |lines| == 1 then lines[0] + "\n"
    else lines[0] + "\n" + Text(lines[1..])
  }

  predicate EndsInReturn(line: string) {
    line != "" && line[|line| - 1] == '\r'
  }

  /** No line ends in a carriage return, so that writing and reading back loses nothing. */
  predicate Clean(lines: Lines) {
    forall line | line in lines :: !EndsInReturn(line)
  }

  function WithoutReturn(line: string): string {
    if EndsInReturn(line) then line[..|line| - 1] else line
  }

  function Trimmed(lines: Lines): Lines {
    if lines == [] then [] else [WithoutReturn(lines[0])] + Trimmed(lines[1..])
  }

  lemma UnifiedStep(c: char, s: string)
    ensures (c == '\r' && s != "" && s[0] == '\n') || Unified([c] + s) == [c] + Unified(s)
    ensures Unified("\r\n" + s) == "\n" + Unified(s)
  {
    assert ([c] + s)[1..] == s && ("\r\n" + s)[2..] == s;
  }

  lemma Regroup(c: char, a: string, b: string)
    ensures [c] + (a + "\n" + b) == ([c] + a) + "\n" + b
  {
  }

  lemma UnifiedShortLine(line: string, rest: string)
    requires line == "" || line == "\r"
    ensures Unified(line + "\n" + rest) == WithoutReturn(line) + "\n" + Unified(rest)
  {
    UnifiedStep('\n', rest);
    assert WithoutReturn(line) == "";
    assert "" + "\n" + Unified(rest) == ['\n'] + Unified(rest);
    if line == "" {
      assert line + "\n" + rest == ['\n'] + rest;
    } else {
      assert line + "\n" + rest == "\r\n" + rest;
    }
  }

  lemma {:induction false} UnifiedLine(line: string, rest: string)
    requires OneLine(line)
    ensures Unified(line + "\n" + rest) == WithoutReturn(line) + "\n" + Unified(rest)
  {
    if line == "" || line == "\r" {
      UnifiedShortLine(line, rest);
    } else {
      var more := line[1..];
      var tail := more + "\n" + rest;
      assert line == [line[0]] + more;
      Regroup(line[0], more, rest);
      assert tail[0] == '\n' ==> line == [line[0]];
      UnifiedStep(line[0], tail);
      UnifiedLine(more, rest);
      WithoutReturnTail(line);
      Regroup(line[0], WithoutReturn(more), Unified(rest));
    }
  }

  lemma WithoutReturnTail(line: string)
    requires line != "" && line != "\r"
    ensures WithoutReturn(line) == [line[0]] + WithoutReturn(line[1..])
  {
  }

  lemma LinesOfGivesLines(markdown: string)
    ensures OneLines(LinesOf(markdown))
  {
    SplitGivesLines(Unified(markdown));
  }

  /** Splitting what writing put together. */
  lemma {:induction false} SplitUnifiedText(lines: Lines)
    requires OneLines(lines) && lines != []
    ensures Split(Unified(Text(lines))) == Trimmed(lines) + [""]
    decreases |lines|
  {
    var line := lines[0];
    if |lines| == 1 {
      assert Text(lines) == line + "\n" + "";
      UnifiedLine(line, "");
      SplitLine(WithoutReturn(line), "");
    } else {
      UnifiedLine(line, Text(lines[1..]));
      SplitLine(WithoutReturn(line), Unified(Text(lines[1..])));
      SplitUnifiedText(lines[1..]);
    }
  }

  /** Reading back written lines drops one carriage return from the end of each. */
  lemma LinesOfText(lines: Lines)
    requires OneLines(lines) && lines != []
    ensures LinesOf(Text(lines)) == Trimmed(lines)
  {
    SplitUnifiedText(lines);
  }

  lemma {:induction false} TrimmedAt(lines: Lines, k: nat)
    requires k < |lines|
    ensures |Trimmed(lines)| == |lines| && Trimmed(lines)[k] == WithoutReturn(lines[k])
    decreases |lines|
  {
    if |lines| > 1 { TrimmedAt(lines[1..], if k > 0 then k - 1 else 0); }
  }

  lemma TrimmedExactly(lines: Lines)
    ensures |Trimmed(lines)| == |lines|
    ensures Trimmed(lines) == lines <==> Clean(lines)
  {
    forall k | 0 <= k < |lines| ensures |Trimmed(lines)| == |lines| && Trimmed(lines)[k] == WithoutReturn(lines[k]) {
      TrimmedAt(lines, k);
    }
    if lines == [] {
      assert Trimmed(lines) == [];
    } else {
      TrimmedAt(lines, 0);
      if !Clean(lines) {
        var line :| line in lines && EndsInReturn(line);
        var k: nat :| k < |lines| && lines[k] == line;
        assert Trimmed(lines)[k] != lines[k];
      }
    }
  }

  /** Line lists survive writing and reading back exactly when no line ends in a carriage return. */
  lemma LinesRoundTripExactly(lines: Lines)
    requires OneLines(lines) && lines != []
    ensures LinesOf(Text(lines)) == lines <==> Clean(lines)
  {
    LinesOfText(lines);
    TrimmedExactly(lines);
  }

  lemma {:induction false} SplitText(lines: Lines)
    requires OneLines(lines) && lines != []
    ensures Split(Text(lines)) == lines + [""]
    decreases |lines|
  {
    if |lines| == 1 {
      assert Text(lines) == lines[0] + "\n" + "";
      SplitLine(lines[0], "");
    } else {
      SplitLine(lines[0], Text(lines[1..]));
      SplitText(lines[1..]);
    }
  }

  /** Different lines are different text. */
  lemma TextIsInjective(a: Lines, b: Lines)
    requires OneLines(a) && OneLines(b) && a != [] && b != []
    requires Text(a) == Text(b)
    ensures a == b
  {
    SplitText(a);
    SplitText(b);
    assert a == (a + [""])[..|a|] && b == (b + [""])[..|b|];
  }

  // ---------------------------------------------------------------------------
  // Prose and code
  // ---------------------------------------------------------------------------

  /** A block's first and last line, counted from one. */
  datatype Span = Span(startLine: nat, endLine: nat)

  /** The last line of the block before the k-th. */
  function Before(spans: seq<Span>, k: nat): nat
    requires k <= |spans|
  {
    if k == 0 then 0 else spans[k - 1].endLine
  }

  predicate Fits(spans: seq<Span>, k: nat, count: nat)
    requires k < |spans|
  {
    Before(spans, k) < spans[k].startLine <= spans[k].endLine <= count
  }

  /** In document order, disjoint and in range. */
  predicate Placed(spans: seq<Span>, count: nat) {
    forall k | 0 <= k < |spans| :: Fits(spans, k, count)
  }

  lemma BeforeInRange(spans: seq<Span>, k: nat, count: nat)
    requires k <= |spans| && Placed(spans, count)
    ensures Before(spans, k) <= count
    ensures k < |spans| ==> Fits(spans, k, count)
  {
    assert k > 0 ==> Fits(spans, k - 1, count);
  }

  /** The lines between the blocks: segment k lies before block k, the last one behind all of them. */
  function Segment(lines: Lines, spans: seq<Span>, k: nat): Lines
    requires k <= |spans| && Placed(spans, |lines|)
  {
    BeforeInRange(spans, k, |lines|);
    if k == |spans| then lines[Before(spans, k)..] else lines[Before(spans, k)..spans[k].startLine - 1]
  }

  function Block(lines: Lines, spans: seq<Span>, k: nat): (block: Lines)
    requires k < |spans| && Placed(spans, |lines|)
    ensures block != []
  {
    assert Fits(spans, k, |lines|);
    lines[spans[k].startLine - 1..spans[k].endLine]
  }

  function Prose(lines: Lines, spans: seq<Span>): (prose: seq<Lines>)
    requires Placed(spans, |lines|)
    ensures |prose| == |spans| + 1
  {
    seq(|spans| + 1, k requires 0 <= k <= |spans| => Segment(lines, spans, k))
  }

  function Code(lines: Lines, spans: seq<Span>): (code: seq<Lines>)
    requires Placed(spans, |lines|)
    ensures |code| == |spans|
  {
    seq(|spans|, k requires 0 <= k < |spans| => Block(lines, spans, k))
  }

  /** Segments and blocks in turn, from segment k on. */
  function Weave(prose: seq<Lines>, code: seq<Lines>, k: nat): Lines
    requires |prose| == |code| + 1 && k <= |code|
    decreases |code| - k
  {
    if k == |code| then prose[k] else prose[k] + code[k] + Weave(prose, code, k + 1)
  }

  /** Blocks that keep their lines leave the document as it is. */
  lemma {:induction false} WeaveKeeps(lines: Lines, spans: seq<Span>, code: seq<Lines>, lo: nat, hi: nat)
    requires Placed(spans, |lines|) && |code| == |spans|
    requires lo <= hi <= |spans|
    requires forall k | lo <= k < hi :: code[k] == Block(lines, spans, k)
    ensures Before(spans, lo) <= |lines| && Before(spans, hi) <= |lines|
    ensures lines[..Before(spans, lo)] + Weave(Prose(lines, spans), code, lo)
         == lines[..Before(spans, hi)] + Weave(Prose(lines, spans), code, hi)
    decreases hi - lo
  {
    BeforeInRange(spans, lo, |lines|);
    BeforeInRange(spans, hi, |lines|);
    if lo < hi {
      WeaveKeeps(lines, spans, code, lo + 1, hi);
      WeaveStep(lines, spans, code, lo);
    }
  }

  lemma WeaveStep(lines: Lines, spans: seq<Span>, code: seq<Lines>, k: nat)
    requires Placed(spans, |lines|) && |code| == |spans|
    requires k < |spans| && code[k] == Block(lines, spans, k)
    ensures Before(spans, k) <= |lines| && spans[k].endLine <= |lines|
    ensures lines[..Before(spans, k)] + Weave(Prose(lines, spans), code, k)
         == lines[..spans[k].endLine] + Weave(Prose(lines, spans), code, k + 1)
  {
    assert Fits(spans, k, |lines|);
    var rest := Weave(Prose(lines, spans), code, k + 1);
    assert Weave(Prose(lines, spans), code, k) == Segment(lines, spans, k) + Block(lines, spans, k) + rest;
    Joined(lines, Before(spans, k), spans[k].startLine - 1, spans[k].endLine, rest);
  }

  lemma Joined(lines: Lines, a: nat, b: nat, c: nat, rest: Lines)
    requires a <= b <= c <= |lines|
    ensures lines[..a] + (lines[a..b] + lines[b..c] + rest) == lines[..c] + rest
  {
    assert lines[..a] + lines[a..b] + lines[b..c] == lines[..c];
  }

  /** A document is its prose and its code in turn. */
  lemma WeaveRestores(lines: Lines, spans: seq<Span>)
    requires Placed(spans, |lines|)
    ensures Weave(Prose(lines, spans), Code(lines, spans), 0) == lines
  {
    var code := Code(lines, spans);
    WeaveKeeps(lines, spans, code, 0, |spans|);
    BeforeInRange(spans, |spans|, |lines|);
    assert lines[..0] + Weave(Prose(lines, spans), code, 0) == Weave(Prose(lines, spans), code, 0);
    assert lines[..Before(spans, |spans|)] + lines[Before(spans, |spans|)..] == lines;
  }

  // ---------------------------------------------------------------------------
  // Replacing blocks
  // ---------------------------------------------------------------------------

  type Replacements = map<nat, string>

  /** The blocks after the replacements. */
  function NewCode(lines: Lines, spans: seq<Span>, replacements: Replacements): (code: seq<Lines>)
    requires Placed(spans, |lines|)
    ensures |code| == |spans|
  {
    seq(|spans|, k requires 0 <= k < |spans| =>
      if k in replacements then LinesOf(replacements[k]) else Block(lines, spans, k))
  }

  function Replaced(lines: Lines, spans: seq<Span>, replacements: Replacements): Lines
    requires Placed(spans, |lines|)
  {
    Weave(Prose(lines, spans), NewCode(lines, spans, replacements), 0)
  }

  predicate Falls(keys: seq<nat>) {
    forall i, j | 0 <= i < j < |keys| :: keys[i] > keys[j]
  }

  /** Each key once, from high to low. */
  ghost predicate Lists(keys: seq<nat>, replacements: Replacements) {
    Falls(keys) && forall k :: k in keys <==> k in replacements
  }

  lemma {:induction false} HasLargest(keys: set<nat>)
    requires keys != {}
    ensures exists k :: k in keys && forall j | j in keys :: j <= k
    decreases keys
  {
    var k :| k in keys;
    var above := set j | j in keys && j > k;
    assert forall j | j in keys :: j in above || j <= k;
    if above != {} {
      assert k !in above && above < keys;
      HasLargest(above);
    }
  }

  /** `[...entries()].sort(...)`: the keys from high to low. */
  method SortedKeys(replacements: Replacements) returns (keys: seq<nat>)
    ensures Lists(keys, replacements)
  {
    var left := replacements.Keys;
    keys := [];
    while left != {}
      invariant Falls(keys)
      invariant forall i, k | 0 <= i < |keys| && k in left :: keys[i] > k
      invariant forall k :: k in replacements <==> k in keys || k in left
      decreases left
    {
      HasLargest(left);
      var k :| k in left && forall j | j in left :: j <= k;
      keys, left := keys + [k], left - {k};
    }
  }

  datatype Written = Written(text: string) | UnknownSpan(index: nat)

  /** `lines.splice(startLine - 1, endLine - startLine + 1, ...block)`, with its clamping. */
  function Spliced(lines: Lines, span: Span, block: Lines): Lines {
    var start := if span.startLine == 0 then 0 else span.startLine - 1;
    (if start <= |lines| then lines[..start] else lines) + block
    + if span.endLine <= |lines| then lines[span.endLine..] else []
  }

  /** The splices for the keys from the i-th on. */
  function Splices(lines: Lines, spans: seq<Span>, replacements: Replacements, keys: seq<nat>, i: nat): Lines
    requires i <= |keys|
    requires forall k | k in keys :: k < |spans| && k in replacements
    decreases |keys| - i
  {
    if i == |keys| then lines
    else
      assert keys[i] in keys;
      Splices(Spliced(lines, spans[keys[i]], LinesOf(replacements[keys[i]])), spans, replacements, keys, i + 1)
  }

  /** One `lines.splice` below blocks that are in place already. */
  lemma SpliceStep(was: Lines, lines: Lines, front: nat, start: nat, end: nat, block: Lines, tail: Lines)
    requires front <= start < end <= |was| && lines == was[..end] + tail
    ensures Spliced(lines, Span(start + 1, end), block) == was[..front] + (was[front..start] + block + tail)
  {
    assert lines[..start] == was[..front] + was[front..start];
    assert lines[end..] == tail;
  }

  /** Every block from `done` on is replaced and no line above it is touched yet. */
  ghost predicate Reached(was: Lines, lines: Lines, spans: seq<Span>, replacements: Replacements, done: nat) {
    && Placed(spans, |was|) && done <= |spans| && Before(spans, done) <= |was|
    && lines == was[..Before(spans, done)] + Weave(Prose(was, spans), NewCode(was, spans, replacements), done)
  }

  lemma ReachedDown(was: Lines, lines: Lines, spans: seq<Span>, replacements: Replacements, lo: nat, hi: nat)
    requires Reached(was, lines, spans, replacements, hi) && lo <= hi
    requires forall j | lo <= j < hi :: j !in replacements
    ensures Reached(was, lines, spans, replacements, lo)
  {
    WeaveKeeps(was, spans, NewCode(was, spans, replacements), lo, hi);
  }

  lemma ReachedNext(was: Lines, lines: Lines, spans: seq<Span>, replacements: Replacements, k: nat)
    requires Reached(was, lines, spans, replacements, k + 1) && k in replacements
    ensures 0 < spans[k].startLine <= spans[k].endLine <= |lines|
    ensures Reached(was, Spliced(lines, spans[k], LinesOf(replacements[k])), spans, replacements, k)
  {
    var prose, code := Prose(was, spans), NewCode(was, spans, replacements);
    assert Fits(spans, k, |was|);
    SpliceStep(was, lines, Before(spans, k), spans[k].startLine - 1, spans[k].endLine, code[k],
               Weave(prose, code, k + 1));
  }

  lemma ReachedNone(was: Lines, spans: seq<Span>, replacements: Replacements)
    requires Placed(spans, |was|)
    ensures Reached(was, was, spans, replacements, |spans|)
  {
    BeforeInRange(spans, |spans|, |was|);
  }

  lemma NoKeyBetween(keys: seq<nat>, i: nat, replacements: Replacements, done: nat)
    requires Lists(keys, replacements)
    requires i <= |keys| && (i == 0 || done == keys[i - 1])
    ensures forall k | k in replacements && k < done :: i < |keys| && k <= keys[i]
  {
    forall k | k in replacements && k < done ensures i < |keys| && k <= keys[i] {
      assert k in keys;
      var j: nat :| j < |keys| && keys[j] == k;
    }
  }

  /** Every replacement is for a block that exists. */
  predicate Known(spans: seq<Span>, replacements: Replacements) {
    forall k | k in replacements :: k < |spans|
  }

  /** The block below which everything is done when the first `i` keys are dealt with. */
  function Done(spans: seq<Span>, keys: seq<nat>, i: nat): nat
    requires i <= |keys|
  {
    if i == 0 then |spans| else keys[i - 1]
  }

  /** The blocks of the first `i` keys are in place, and the other keys are still to come. */
  ghost predicate Underway(
    was: Lines, lines: Lines, spans: seq<Span>, replacements: Replacements, keys: seq<nat>, i: nat)
  {
    && Lists(keys, replacements) && Known(spans, replacements) && i <= |keys|
    && Reached(was, lines, spans, replacements, Done(spans, keys, i))
  }

  lemma {:induction false} SplicesReplace(
      was: Lines, lines: Lines, spans: seq<Span>, replacements: Replacements, keys: seq<nat>, i: nat)
    requires Underway(was, lines, spans, replacements, keys, i)
    ensures Splices(lines, spans, replacements, keys, i) == Replaced(was, spans, replacements)
    decreases |keys| - i
  {
    if i == |keys| {
      ReachedAll(was, lines, spans, replacements, keys);
    } else {
      var next := ReachedKey(was, lines, spans, replacements, keys, i);
      SplicesReplace(was, next, spans, replacements, keys, i + 1);
    }
  }

  lemma ReachedKey(was: Lines, lines: Lines, spans: seq<Span>, replacements: Replacements, keys: seq<nat>, i: nat)
    returns (next: Lines)
    requires Underway(was, lines, spans, replacements, keys, i) && i < |keys|
    ensures Underway(was, next, spans, replacements, keys, i + 1)
    ensures Splices(lines, spans, replacements, keys, i) == Splices(next, spans, replacements, keys, i + 1)
  {
    var k := keys[i];
    assert k in keys;
    assert Reached(was, lines, spans, replacements, k + 1) by {
      NoKeyBetween(keys, i, replacements, Done(spans, keys, i));
      ReachedDown(was, lines, spans, replacements, k + 1, Done(spans, keys, i));
    }
    ReachedNext(was, lines, spans, replacements, k);
    next := Spliced(lines, spans[k], LinesOf(replacements[k]));
  }

  lemma ReachedAll(was: Lines, lines: Lines, spans: seq<Span>, replacements: Replacements, keys: seq<nat>)
    requires Underway(was, lines, spans, replacements, keys, |keys|)
    ensures lines == Replaced(was, spans, replacements)
  {
    NoKeyBetween(keys, |keys|, replacements, Done(spans, keys, |keys|));
    ReachedDown(was, lines, spans, replacements, 0, Done(spans, keys, |keys|));
    assert was[..0] + Replaced(was, spans, replacements) == Replaced(was, spans, replacements);
  }

  /** Splicing from the last block to the first puts every new block in place of the old one. */
  lemma SplicingReplaces(lines: Lines, spans: seq<Span>, replacements: Replacements, keys: seq<nat>)
    requires Placed(spans, |lines|) && Lists(keys, replacements) && Known(spans, replacements)
    ensures Splices(lines, spans, replacements, keys, 0) == Replaced(lines, spans, replacements)
  {
    ReachedNone(lines, spans, replacements);
    SplicesReplace(lines, lines, spans, replacements, keys, 0);
  }

  /** The first key too large is the largest key. */
  lemma UnknownIsLargest(keys: seq<nat>, i: nat, replacements: Replacements, count: nat)
    requires Lists(keys, replacements) && i < |keys| && keys[i] >= count && forall j | 0 <= j < i :: keys[j] < count
    ensures keys[i] in replacements && forall k | k in replacements :: k <= keys[i]
  {
    assert i > 0 ==> keys[0] > keys[i];
    assert keys[i] in keys;
  }

  /** `replaceSpanTexts`. */
  method ReplaceSpanTexts(markdown: string, spans: seq<Span>, replacements: Replacements) returns (written: Written)
    requires Placed(spans, |LinesOf(markdown)|)
    ensures written.Written? <==> Known(spans, replacements)
    ensures written.Written? ==> written.text == Text(Replaced(LinesOf(markdown), spans, replacements))
    ensures written.UnknownSpan? ==> written.index in replacements && written.index >= |spans|
    ensures written.UnknownSpan? ==> forall k | k in replacements :: k <= written.index
  {
    var lines := LinesOf(markdown);
    var keys := SortedKeys(replacements);
    for i := 0 to |keys|
      invariant forall j | 0 <= j < i :: keys[j] < |spans|
      invariant Known(spans, replacements) ==>
        Splices(LinesOf(markdown), spans, replacements, keys, 0) == Splices(lines, spans, replacements, keys, i)
    {
      var k := keys[i];
      assert k in keys;
      if k >= |spans| {
        UnknownIsLargest(keys, i, replacements, |spans|);
        return UnknownSpan(k);
      }
      lines := Spliced(lines, spans[k], LinesOf(replacements[k]));
    }
    assert Known(spans, replacements);
    SplicingReplaces(LinesOf(markdown), spans, replacements, keys);
    return Written(Text(lines));
  }
}
