/**
 * `computeMechanicalUpdate` of scripts/translation-brief.ts. Two masks are compared to see
 * that the prose is untouched; then the changed code blocks are spliced into the translation.
 */
module MechanicalUpdate {
  import opened Basics
  import opened Texts
  import opened Decimals
  import opened TranslationBrief

  /** A text and the lines of its code blocks, as the Markdown parser reports them. */
  datatype Document = Document(markdown: string, spans: seq<Span>)

  predicate Parsed(doc: Document) {
    Placed(doc.spans, |LinesOf(doc.markdown)|)
  }

  function ProseOf(doc: Document): (prose: seq<Lines>)
    requires Parsed(doc)
    ensures |prose| == |doc.spans| + 1
  {
    Prose(LinesOf(doc.markdown), doc.spans)
  }

  function CodeOf(doc: Document): (code: seq<Lines>)
    requires Parsed(doc)
    ensures |code| == |doc.spans|
  {
    Code(LinesOf(doc.markdown), doc.spans)
  }

  // ---------------------------------------------------------------------------
  // Masks
  // ---------------------------------------------------------------------------

  function Placeholder(k: nat): string {
    "DSH_TRANSLATION_CODE_" + Decimal(k)
  }

  function Masks(count: nat): Replacements {
    map k: nat | 0 <= k < count :: Placeholder(k) + "\n"
  }

  function Marks(count: nat): (marks: seq<Lines>)
    ensures |marks| == count
  {
    seq(count, k requires 0 <= k < count => [Placeholder(k)])
  }

  /** `maskCodeSpans`. */
  function Mask(doc: Document): string
    requires Parsed(doc)
  {
    Text(Replaced(LinesOf(doc.markdown), doc.spans, Masks(|doc.spans|)))
  }

  lemma PlaceholderLine(k: nat)
    ensures OneLine(Placeholder(k)) && LinesOf(Placeholder(k) + "\n") == [Placeholder(k)]
  {
    DecimalDigits(k);
    assert OneLine(Decimal(k)) && !EndsInReturn(Decimal(k));
    assert Text([Placeholder(k)]) == Placeholder(k) + "\n";
    LinesRoundTripExactly([Placeholder(k)]);
  }

  lemma PlaceholdersDiffer(j: nat, k: nat)
    requires Placeholder(j) == Placeholder(k)
    ensures j == k
  {
    assert Decimal(j) == Placeholder(j)[21..] == Placeholder(k)[21..] == Decimal(k);
    DecimalIsInjective(j, k);
  }

  /** A mask is the document's prose with one line for each block. */
  lemma MaskIsWeave(doc: Document)
    requires Parsed(doc)
    ensures Mask(doc) == Text(Weave(ProseOf(doc), Marks(|doc.spans|), 0))
  {
    var count := |doc.spans|;
    forall k | 0 <= k < count ensures NewCode(LinesOf(doc.markdown), doc.spans, Masks(count))[k] == Marks(count)[k] {
      PlaceholderLine(k);
    }
    assert NewCode(LinesOf(doc.markdown), doc.spans, Masks(count)) == Marks(count);
  }

  // ---------------------------------------------------------------------------
  // When masks determine the prose
  // ---------------------------------------------------------------------------

  predicate ClearOfMarks(prose: seq<Lines>, k: nat)
    requires k < |prose|
  {
    && (k + 1 < |prose| ==> Placeholder(k) !in prose[k])
    && (k > 0 ==> Placeholder(k - 1) !in prose[k])
  }

  /** No segment holds the placeholder of the block on either side of it. */
  predicate Unmistakable(prose: seq<Lines>) {
    forall k | 0 <= k < |prose| :: ClearOfMarks(prose, k)
  }

  /** What follows segment k: its block's mark and the rest. */
  function Behind(prose: seq<Lines>, k: nat): Lines
    requires k < |prose| - 1
  {
    Weave(prose, Marks(|prose| - 1), k + 1)
  }

  lemma WeaveMarks(prose: seq<Lines>, k: nat)
    requires k < |prose|
    ensures k < |prose| - 1 ==> Weave(prose, Marks(|prose| - 1), k) == prose[k] + ([Placeholder(k)] + Behind(prose, k))
    ensures k == |prose| - 1 ==> Weave(prose, Marks(|prose| - 1), k) == prose[k]
  {
    if k < |prose| - 1 {
      assert Marks(|prose| - 1)[k] == [Placeholder(k)];
      Reassociate(prose[k], [Placeholder(k)], Behind(prose, k));
    }
  }

  lemma Reassociate(a: Lines, b: Lines, c: Lines)
    ensures a + b + c == a + (b + c)
  {
  }

  lemma NotWithin(front: Lines, back: Lines, u: Lines, line: string, rest: Lines)
    requires front + back == u + ([line] + rest) && line !in front
    ensures |u| >= |front|
  {
    assert (front + back)[|u|] == line;
  }

  lemma CutMark(front: Lines, mark: string, back: Lines, u: Lines, line: string, rest: Lines)
    requires front + ([mark] + back) == u + ([line] + rest)
    ensures |u| == |front| ==> mark == line && back == rest
    ensures |u| > |front| ==> back == u[|front| + 1..] + ([line] + rest)
  {
    var whole := front + ([mark] + back);
    assert whole[|front|] == mark && whole[|u|] == line;
    assert back == whole[|front| + 1..];
    if |u| == |front| {
      assert rest == whole[|front| + 1..];
    } else if |u| > |front| {
      assert whole[|front| + 1..] == u[|front| + 1..] + ([line] + rest);
    }
  }

  lemma Holds(u: Lines, line: string, rest: Lines)
    ensures line in u + ([line] + rest)
  {
    assert (u + ([line] + rest))[|u|] == line;
  }

  lemma Longer(u: Lines, mark: string, more: Lines, rest: Lines)
    ensures u + ([mark] + (more + rest)) == (u + [mark] + more) + rest
  {
  }

  /** Once another prose reads block k's mark too late, its later marks are too late as well. */
  lemma {:induction false} NeverAhead(p: seq<Lines>, q: seq<Lines>, k: nat, u: Lines)
    requires Unmistakable(p) && |p| == |q| && k < |p| - 1
    ensures Behind(p, k) != u + ([Placeholder(k)] + Behind(q, k))
    decreases |p| - k
  {
    if Behind(p, k) == u + ([Placeholder(k)] + Behind(q, k)) {
      WeaveMarks(p, k + 1);
      WeaveMarks(q, k + 1);
      assert ClearOfMarks(p, k + 1);
      if k + 1 == |p| - 1 {
        Holds(u, Placeholder(k), Behind(q, k));
      } else {
        var mark := Placeholder(k + 1);
        NotWithin(p[k + 1], [mark] + Behind(p, k + 1), u, Placeholder(k), Behind(q, k));
        CutMark(p[k + 1], mark, Behind(p, k + 1), u, Placeholder(k), Behind(q, k));
        if |u| == |p[k + 1]| {
          PlaceholdersDiffer(k, k + 1);
        } else {
          var late := u[|p[k + 1]| + 1..];
          Longer(late, Placeholder(k), q[k + 1], [mark] + Behind(q, k + 1));
          NeverAhead(p, q, k + 1, late + [Placeholder(k)] + q[k + 1]);
        }
      }
    }
  }

  lemma {:induction false} SameFrom(p: seq<Lines>, q: seq<Lines>, k: nat)
    requires Unmistakable(p) && |p| == |q| && k < |p|
    requires Weave(p, Marks(|p| - 1), k) == Weave(q, Marks(|p| - 1), k)
    ensures p[k..] == q[k..]
    decreases |p| - k
  {
    WeaveMarks(p, k);
    WeaveMarks(q, k);
    if k < |p| - 1 {
      var mark := Placeholder(k);
      assert ClearOfMarks(p, k);
      NotWithin(p[k], [mark] + Behind(p, k), q[k], mark, Behind(q, k));
      CutMark(p[k], mark, Behind(p, k), q[k], mark, Behind(q, k));
      if |q[k]| > |p[k]| {
        NeverAhead(p, q, k, q[k][|p[k]| + 1..]);
      } else {
        SameFrom(p, q, k + 1);
        assert p[k] == q[k] by {
          assert p[k] == (p[k] + ([mark] + Behind(p, k)))[..|p[k]|];
        }
        assert p[k..] == [p[k]] + p[k + 1..] && q[k..] == [q[k]] + q[k + 1..];
      }
    }
  }

  /** The same mask from another prose. */
  ghost predicate SameMask(p: seq<Lines>, q: seq<Lines>) {
    |p| == |q| > 0 && Weave(p, Marks(|p| - 1), 0) == Weave(q, Marks(|p| - 1), 0)
  }

  /** The mark of block k stands in the segment before it: another prose reads it there. */
  function Earlier(p: seq<Lines>, k: nat, j: nat): seq<Lines>
    requires k + 1 < |p| && j < |p[k]|
  {
    p[..k] + [p[k][..j], p[k][j + 1..] + [Placeholder(k)] + p[k + 1]] + p[k + 2..]
  }

  /** The mark of block k stands in the segment behind it. */
  function Later(p: seq<Lines>, k: nat, j: nat): seq<Lines>
    requires k + 1 < |p| && j < |p[k + 1]|
  {
    p[..k] + [p[k] + [Placeholder(k)] + p[k + 1][..j], p[k + 1][j + 1..]] + p[k + 2..]
  }

  lemma {:induction false} SameSuffix(p: seq<Lines>, q: seq<Lines>, k: nat)
    requires |p| == |q| && k < |p| && p[k..] == q[k..]
    ensures Weave(p, Marks(|p| - 1), k) == Weave(q, Marks(|p| - 1), k)
    decreases |p| - k
  {
    assert p[k..][0] == q[k..][0];
    if k < |p| - 1 {
      assert p[k..][1..] == p[k + 1..] && q[k..][1..] == q[k + 1..];
      SameSuffix(p, q, k + 1);
      WeaveMarks(p, k);
      WeaveMarks(q, k);
    }
  }

  lemma {:induction false} SamePrefix(p: seq<Lines>, q: seq<Lines>, k: nat)
    requires |p| == |q| && k < |p| && p[..k] == q[..k]
    requires Weave(p, Marks(|p| - 1), k) == Weave(q, Marks(|p| - 1), k)
    ensures SameMask(p, q)
    decreases k
  {
    if k > 0 {
      assert p[k - 1] == p[..k][k - 1] == q[..k][k - 1] == q[k - 1];
      assert p[..k - 1] == p[..k][..k - 1] && q[..k - 1] == q[..k][..k - 1];
      WeaveMarks(p, k - 1);
      WeaveMarks(q, k - 1);
      SamePrefix(p, q, k - 1);
    }
  }

  lemma SplitAt(lines: Lines, j: nat)
    requires j < |lines|
    ensures lines == lines[..j] + ([lines[j]] + lines[j + 1..])
  {
  }

  function Tail(p: seq<Lines>, k: nat): Lines
    requires k < |p|
  {
    if k == |p| - 1 then [] else [Placeholder(k)] + Behind(p, k)
  }

  lemma WeaveTail(p: seq<Lines>, k: nat)
    requires k < |p|
    ensures Weave(p, Marks(|p| - 1), k) == p[k] + Tail(p, k)
  {
    WeaveMarks(p, k);
  }

  lemma SameTail(p: seq<Lines>, q: seq<Lines>, k: nat)
    requires |p| == |q| && k < |p| && p[k + 1..] == q[k + 1..]
    ensures Tail(p, k) == Tail(q, k)
  {
    if k < |p| - 1 { SameSuffix(p, q, k + 1); }
  }

  /** Two segments, their mark and what follows. */
  lemma WeaveTwo(p: seq<Lines>, k: nat)
    requires k + 1 < |p|
    ensures Weave(p, Marks(|p| - 1), k) == (p[k] + ([Placeholder(k)] + p[k + 1])) + Tail(p, k + 1)
  {
    WeaveMarks(p, k);
    WeaveTail(p, k + 1);
    assert Behind(p, k) == p[k + 1] + Tail(p, k + 1);
    Regroup(p[k], Placeholder(k), p[k + 1], Tail(p, k + 1));
  }

  /** Two neighbouring segments may be cut differently as long as the lines stay the same. */
  lemma RecutKeepsMask(p: seq<Lines>, q: seq<Lines>, k: nat)
    requires |p| == |q| && k + 1 < |p| && q[..k] == p[..k] && q[k + 2..] == p[k + 2..]
    requires p[k] + ([Placeholder(k)] + p[k + 1]) == q[k] + ([Placeholder(k)] + q[k + 1])
    ensures SameMask(p, q)
  {
    assert Weave(p, Marks(|p| - 1), k) == Weave(q, Marks(|p| - 1), k) by {
      SameTail(p, q, k + 1);
      WeaveTwo(p, k);
      WeaveTwo(q, k);
    }
    SamePrefix(p, q, k);
  }

  lemma Regroup(a: Lines, mark: string, b: Lines, rest: Lines)
    ensures a + ([mark] + (b + rest)) == (a + ([mark] + b)) + rest
  {
  }

  lemma EarlierIsAnother(p: seq<Lines>, k: nat, j: nat)
    requires k + 1 < |p| && j < |p[k]| && p[k][j] == Placeholder(k)
    ensures SameMask(p, Earlier(p, k, j)) && Earlier(p, k, j) != p
  {
    var q := Earlier(p, k, j);
    assert q[k] == p[k][..j];
    SplitAt(p[k], j);
    RecutKeepsMask(p, q, k);
  }

  lemma LaterIsAnother(p: seq<Lines>, k: nat, j: nat)
    requires k + 1 < |p| && j < |p[k + 1]| && p[k + 1][j] == Placeholder(k)
    ensures SameMask(p, Later(p, k, j)) && Later(p, k, j) != p
  {
    var q := Later(p, k, j);
    assert q[k + 1] == p[k + 1][j + 1..];
    SplitAt(p[k + 1], j);
    RecutKeepsMask(p, q, k);
  }

  /** A mask determines the prose exactly when no segment holds the placeholder of the
      block before it or behind it. */
  lemma MaskDeterminesProseExactly(p: seq<Lines>)
    requires p != []
    ensures Unmistakable(p) <==> forall q | SameMask(p, q) :: q == p
  {
    if Unmistakable(p) {
      forall q | SameMask(p, q) ensures q == p {
        SameFrom(p, q, 0);
        assert p[0..] == p && q[0..] == q;
      }
    } else {
      var k: nat :| k < |p| && !ClearOfMarks(p, k);
      if k + 1 < |p| && Placeholder(k) in p[k] {
        var j: nat :| j < |p[k]| && p[k][j] == Placeholder(k);
        EarlierIsAnother(p, k, j);
      } else {
        var j: nat :| j < |p[k]| && p[k][j] == Placeholder(k - 1);
        LaterIsAnother(p, k - 1, j);
      }
    }
  }

  // ---------------------------------------------------------------------------
  // The update
  // ---------------------------------------------------------------------------

  /** The blocks' texts. */
  function TextsOf(doc: Document): (texts: seq<string>)
    requires Parsed(doc)
    ensures |texts| == |doc.spans|
  {
    seq(|doc.spans|, k requires 0 <= k < |doc.spans| => Text(Block(LinesOf(doc.markdown), doc.spans, k)))
  }

  /** The current texts of the blocks that changed. */
  function Changes(was: seq<string>, now: seq<string>): Replacements
    requires |was| == |now|
  {
    map k: nat | 0 <= k < |now| && now[k] != was[k] :: now[k]
  }

  function Update(confirmed: Document, current: Document, counterpart: Document): Option<string>
    requires Parsed(confirmed) && Parsed(current) && Parsed(counterpart)
  {
    var count := |confirmed.spans|;
    if count == 0 || count != |current.spans| || count != |counterpart.spans| then None
    else if Mask(confirmed) != Mask(current) then None
    else if TextsOf(confirmed) != TextsOf(counterpart) then None
    else
      var changed := Changes(TextsOf(confirmed), TextsOf(current));
      if changed == map[] then None
      else Some(Text(Replaced(LinesOf(counterpart.markdown), counterpart.spans, changed)))
  }

  method MaskCodeSpans(doc: Document) returns (mask: string)
    requires Parsed(doc)
    ensures mask == Mask(doc)
  {
    var replacements: Replacements := map[];
    for k := 0 to |doc.spans|
      invariant replacements == Masks(k)
    {
      replacements := replacements[k := Placeholder(k) + "\n"];
    }
    var written := ReplaceSpanTexts(doc.markdown, doc.spans, replacements);
    return written.text;
  }

  /** `confirmed.some(...)`, negated. */
  method SameTexts(a: seq<string>, b: seq<string>) returns (same: bool)
    requires |a| == |b|
    ensures same <==> a == b
  {
    for k := 0 to |a|
      invariant forall j | 0 <= j < k :: a[j] == b[j]
    {
      if a[k] != b[k] { return false; }
    }
    return true;
  }

  /** `current.filter(...)` and the map of its texts. */
  method CollectChanges(was: seq<string>, now: seq<string>) returns (changed: Replacements)
    requires |was| == |now|
    ensures changed == Changes(was, now)
  {
    changed := map[];
    for k := 0 to |now|
      invariant changed == map j: nat | 0 <= j < k && now[j] != was[j] :: now[j]
    {
      if now[k] != was[k] { changed := changed[k := now[k]]; }
    }
  }

  /** `computeMechanicalUpdate`. */
  method ComputeMechanicalUpdate(confirmed: Document, current: Document, counterpart: Document)
    returns (update: Option<string>)
    requires Parsed(confirmed) && Parsed(current) && Parsed(counterpart)
    ensures update == Update(confirmed, current, counterpart)
  {
    var count := |confirmed.spans|;
    if count == 0 || count != |current.spans| || count != |counterpart.spans| { return None; }
    var was := MaskCodeSpans(confirmed);
    var now := MaskCodeSpans(current);
    if was != now { return None; }
    var same := SameTexts(TextsOf(confirmed), TextsOf(counterpart));
    if !same { return None; }
    var changed := CollectChanges(TextsOf(confirmed), TextsOf(current));
    if changed == map[] { return None; }
    var written := ReplaceSpanTexts(counterpart.markdown, counterpart.spans, changed);
    return Some(written.text);
  }

  // ---------------------------------------------------------------------------
  // What an update is
  // ---------------------------------------------------------------------------

  predicate AllLines(parts: seq<Lines>) {
    forall part | part in parts :: OneLines(part)
  }

  lemma SliceLines(lines: Lines, i: nat, j: nat)
    requires OneLines(lines) && i <= j <= |lines|
    ensures OneLines(lines[i..j])
  {
    forall line | line in lines[i..j] ensures OneLine(line) {
      assert line in lines;
    }
  }

  lemma DocumentLines(doc: Document)
    requires Parsed(doc)
    ensures AllLines(ProseOf(doc)) && AllLines(CodeOf(doc))
  {
    var lines := LinesOf(doc.markdown);
    LinesOfGivesLines(doc.markdown);
    forall k | 0 <= k <= |doc.spans| ensures OneLines(ProseOf(doc)[k]) {
      BeforeInRange(doc.spans, k, |lines|);
      SliceLines(lines, Before(doc.spans, k), if k == |doc.spans| then |lines| else doc.spans[k].startLine - 1);
    }
    forall k | 0 <= k < |doc.spans| ensures OneLines(CodeOf(doc)[k]) {
      BeforeInRange(doc.spans, k, |lines|);
      SliceLines(lines, doc.spans[k].startLine - 1, doc.spans[k].endLine);
    }
  }

  lemma {:induction false} WeaveLines(prose: seq<Lines>, code: seq<Lines>, k: nat)
    requires |prose| == |code| + 1 && k <= |code| && AllLines(prose) && AllLines(code)
    ensures OneLines(Weave(prose, code, k))
    decreases |code| - k
  {
    assert prose[k] in prose;
    if k < |code| {
      assert code[k] in code;
      WeaveLines(prose, code, k + 1);
    }
  }

  lemma MarkLines(count: nat)
    ensures AllLines(Marks(count))
  {
    forall k | 0 <= k < count ensures OneLines(Marks(count)[k]) {
      PlaceholderLine(k);
    }
  }

  lemma MasksAgree(a: Document, b: Document)
    requires Parsed(a) && Parsed(b) && |a.spans| == |b.spans| > 0
    ensures Mask(a) == Mask(b) <==> SameMask(ProseOf(a), ProseOf(b))
  {
    var marks := Marks(|a.spans|);
    MaskIsWeave(a);
    MaskIsWeave(b);
    DocumentLines(a);
    DocumentLines(b);
    MarkLines(|a.spans|);
    WeaveLines(ProseOf(a), marks, 0);
    WeaveLines(ProseOf(b), marks, 0);
    WeaveMarks(ProseOf(a), 0);
    WeaveMarks(ProseOf(b), 0);
    if Mask(a) == Mask(b) {
      TextIsInjective(Weave(ProseOf(a), marks, 0), Weave(ProseOf(b), marks, 0));
    }
  }

  /** Two blocks have the same text exactly when they have the same lines. */
  lemma TextsAgree(a: Document, b: Document, k: nat)
    requires Parsed(a) && Parsed(b) && k < |a.spans| && k < |b.spans|
    ensures TextsOf(a)[k] == TextsOf(b)[k] <==> CodeOf(a)[k] == CodeOf(b)[k]
  {
    DocumentLines(a);
    DocumentLines(b);
    assert CodeOf(a)[k] in CodeOf(a) && CodeOf(b)[k] in CodeOf(b);
    if TextsOf(a)[k] == TextsOf(b)[k] {
      TextIsInjective(CodeOf(a)[k], CodeOf(b)[k]);
    }
  }

  lemma AllTextsAgree(a: Document, b: Document)
    requires Parsed(a) && Parsed(b) && |a.spans| == |b.spans|
    ensures TextsOf(a) == TextsOf(b) <==> CodeOf(a) == CodeOf(b)
  {
    forall k | 0 <= k < |a.spans| ensures TextsOf(a)[k] == TextsOf(b)[k] <==> CodeOf(a)[k] == CodeOf(b)[k] {
      TextsAgree(a, b, k);
    }
  }

  lemma NoChanges(was: seq<string>, now: seq<string>)
    requires |was| == |now|
    ensures Changes(was, now) == map[] <==> was == now
  {
    if Changes(was, now) == map[] {
      forall k | 0 <= k < |now| ensures was[k] == now[k] {
        assert k !in Changes(was, now);
      }
    }
  }

  /** The change is confined to code blocks, and the translation has the confirmed blocks. */
  predicate CodeOnly(confirmed: Document, current: Document, counterpart: Document)
    requires Parsed(confirmed) && Parsed(current) && Parsed(counterpart)
  {
    && CodeOf(confirmed) == CodeOf(counterpart)
    && ProseOf(confirmed) == ProseOf(current)
    && CodeOf(confirmed) != CodeOf(current)
  }

  /** When the masks can be trusted, there is an update exactly for a change of code alone. */
  lemma UpdatesExactlyCodeChanges(confirmed: Document, current: Document, counterpart: Document)
    requires Parsed(confirmed) && Parsed(current) && Parsed(counterpart)
    requires Unmistakable(ProseOf(confirmed))
    ensures Update(confirmed, current, counterpart).Some? <==> CodeOnly(confirmed, current, counterpart)
  {
    var count := |confirmed.spans|;
    if count == |current.spans| == |counterpart.spans| && count > 0 {
      MasksAgree(confirmed, current);
      MaskDeterminesProseExactly(ProseOf(confirmed));
      AllTextsAgree(confirmed, counterpart);
      AllTextsAgree(confirmed, current);
      NoChanges(TextsOf(confirmed), TextsOf(current));
    }
  }

  /** Blocks that stayed keep their lines; changed ones are written out and read back. */
  function Settled(was: seq<Lines>, now: seq<Lines>): (code: seq<Lines>)
    requires |was| == |now|
    ensures |code| == |now|
  {
    seq(|now|, k requires 0 <= k < |now| => if now[k] == was[k] then now[k] else Trimmed(now[k]))
  }

  lemma NewCodeIsSettled(confirmed: Document, current: Document, counterpart: Document)
    requires Parsed(confirmed) && Parsed(current) && Parsed(counterpart)
    requires |confirmed.spans| == |current.spans| && CodeOf(confirmed) == CodeOf(counterpart)
    ensures NewCode(LinesOf(counterpart.markdown), counterpart.spans, Changes(TextsOf(confirmed), TextsOf(current)))
         == Settled(CodeOf(confirmed), CodeOf(current))
  {
    var lines, changed := LinesOf(counterpart.markdown), Changes(TextsOf(confirmed), TextsOf(current));
    DocumentLines(current);
    forall k | 0 <= k < |current.spans|
      ensures NewCode(lines, counterpart.spans, changed)[k] == Settled(CodeOf(confirmed), CodeOf(current))[k]
    {
      TextsAgree(confirmed, current, k);
      assert CodeOf(current)[k] in CodeOf(current);
      assert CodeOf(counterpart)[k] == Block(lines, counterpart.spans, k);
      LinesOfText(CodeOf(current)[k]);
    }
    assert |NewCode(lines, counterpart.spans, changed)| == |Settled(CodeOf(confirmed), CodeOf(current))|;
  }

  /** An update is the translation's prose interleaved with the settled blocks. */
  lemma UpdateInterleaves(confirmed: Document, current: Document, counterpart: Document)
    requires Parsed(confirmed) && Parsed(current) && Parsed(counterpart)
    requires Update(confirmed, current, counterpart).Some?
    ensures |confirmed.spans| == |current.spans| == |counterpart.spans| && CodeOf(confirmed) == CodeOf(counterpart)
    ensures Update(confirmed, current, counterpart).value
         == Text(Weave(ProseOf(counterpart), Settled(CodeOf(confirmed), CodeOf(current)), 0))
  {
    AllTextsAgree(confirmed, counterpart);
    NewCodeIsSettled(confirmed, current, counterpart);
  }

  lemma SettledExactly(was: seq<Lines>, now: seq<Lines>)
    requires |was| == |now|
    ensures Settled(was, now) == now <==> forall k | 0 <= k < |now| && now[k] != was[k] :: Clean(now[k])
    ensures forall k | 0 <= k < |now| :: |Settled(was, now)[k]| == |now[k]|
  {
    forall k | 0 <= k < |now|
      ensures |Settled(was, now)[k]| == |now[k]|
      ensures Settled(was, now)[k] == now[k] <==> (now[k] == was[k] || Clean(now[k]))
    {
      TrimmedExactly(now[k]);
    }
  }

  lemma {:induction false} WeaveIsInjective(prose: seq<Lines>, c: seq<Lines>, d: seq<Lines>, k: nat)
    requires |prose| == |c| + 1 && |c| == |d| && k <= |c|
    requires forall j | k <= j < |c| :: |c[j]| == |d[j]|
    requires Weave(prose, c, k) == Weave(prose, d, k)
    ensures c[k..] == d[k..]
    decreases |c| - k
  {
    if k < |c| {
      CutTwice(prose[k], c[k], Weave(prose, c, k + 1), d[k], Weave(prose, d, k + 1));
      WeaveIsInjective(prose, c, d, k + 1);
      assert c[k..] == [c[k]] + c[k + 1..] && d[k..] == [d[k]] + d[k + 1..];
    }
  }

  lemma CutTwice(front: Lines, b: Lines, rest: Lines, c: Lines, others: Lines)
    requires front + b + rest == front + c + others && |b| == |c|
    ensures b == c && rest == others
  {
    var whole := front + b + rest;
    assert b == whole[|front|..|front| + |b|] && rest == whole[|front| + |b|..];
    assert whole == front + c + others;
    assert c == whole[|front|..|front| + |b|] && others == whole[|front| + |b|..];
  }

  lemma {:induction false} TrimmedLines(lines: Lines)
    requires OneLines(lines)
    ensures OneLines(Trimmed(lines))
  {
    if lines != [] {
      TrimmedLines(lines[1..]);
      assert OneLine(lines[0]);
    }
  }

  lemma SettledLines(was: seq<Lines>, now: seq<Lines>)
    requires |was| == |now| && AllLines(now)
    ensures AllLines(Settled(was, now))
  {
    forall k | 0 <= k < |now| ensures OneLines(Settled(was, now)[k]) {
      assert now[k] in now;
      TrimmedLines(now[k]);
    }
  }

  lemma WeaveNotEmpty(prose: seq<Lines>, code: seq<Lines>)
    requires |prose| == |code| + 1 && code != [] && code[0] != []
    ensures Weave(prose, code, 0) != []
  {
  }

  /** The result holds exactly the current blocks between the translation's own prose if and
      only if no line of a changed block ends in a carriage return. */
  lemma UpdateIsExactly(confirmed: Document, current: Document, counterpart: Document)
    requires Parsed(confirmed) && Parsed(current) && Parsed(counterpart)
    requires Update(confirmed, current, counterpart).Some?
    ensures |current.spans| == |counterpart.spans| == |confirmed.spans|
    ensures Update(confirmed, current, counterpart).value == Text(Weave(ProseOf(counterpart), CodeOf(current), 0))
      <==> forall k | 0 <= k < |current.spans| && CodeOf(current)[k] != CodeOf(confirmed)[k] ::
        Clean(CodeOf(current)[k])
  {
    UpdateInterleaves(confirmed, current, counterpart);
    var prose, was, now := ProseOf(counterpart), CodeOf(confirmed), CodeOf(current);
    SettledExactly(was, now);
    if Update(confirmed, current, counterpart).value == Text(Weave(prose, now, 0)) {
      DocumentLines(counterpart);
      DocumentLines(current);
      SettledLines(was, now);
      WeaveLines(prose, now, 0);
      WeaveLines(prose, Settled(was, now), 0);
      assert now[0] != [] && Settled(was, now)[0] != [];
      WeaveNotEmpty(prose, now);
      WeaveNotEmpty(prose, Settled(was, now));
      TextIsInjective(Weave(prose, Settled(was, now), 0), Weave(prose, now, 0));
      WeaveIsInjective(prose, Settled(was, now), now, 0);
      assert now[0..] == now && Settled(was, now)[0..] == Settled(was, now);
    }
  }

  // ---------------------------------------------------------------------------
  // Updating back
  // ---------------------------------------------------------------------------

  /** The number of lines before segment k. */
  function Extent(prose: seq<Lines>, code: seq<Lines>, k: nat): nat
    requires |prose| == |code| + 1 && k <= |code|
  {
    if k == 0 then 0 else Extent(prose, code, k - 1) + |prose[k - 1]| + |code[k - 1]|
  }

  /** Where the blocks lie when the parts are written one after the other. */
  function Shifted(prose: seq<Lines>, code: seq<Lines>): (spans: seq<Span>)
    requires |prose| == |code| + 1
    ensures |spans| == |code|
  {
    seq(|code|, k requires 0 <= k < |code| =>
      Span(Extent(prose, code, k) + |prose[k]| + 1, Extent(prose, code, k + 1)))
  }

  /** The lines from segment k on start at its extent. */
  lemma {:induction false} WeaveFrom(prose: seq<Lines>, code: seq<Lines>, k: nat)
    requires |prose| == |code| + 1 && k <= |code|
    ensures Extent(prose, code, k) <= |Weave(prose, code, 0)|
    ensures Weave(prose, code, 0)[Extent(prose, code, k)..] == Weave(prose, code, k)
  {
    if k > 0 {
      WeaveFrom(prose, code, k - 1);
      DropMore(Weave(prose, code, 0), Extent(prose, code, k - 1), prose[k - 1], code[k - 1], Weave(prose, code, k));
    }
  }

  lemma DropMore(lines: Lines, at: nat, a: Lines, b: Lines, rest: Lines)
    requires at <= |lines| && lines[at..] == a + b + rest
    ensures at + |a| + |b| <= |lines| && lines[at + |a| + |b|..] == rest
    ensures lines[at..at + |a|] == a && lines[at + |a|..at + |a| + |b|] == b
  {
    var tail := lines[at..];
    assert tail[..|a|] == a && tail[|a|..|a| + |b|] == b && tail[|a| + |b|..] == rest;
    assert lines[at..at + |a|] == tail[..|a|];
    assert lines[at + |a|..at + |a| + |b|] == tail[|a|..|a| + |b|];
    assert lines[at + |a| + |b|..] == tail[|a| + |b|..];
  }

  lemma WeaveCut(prose: seq<Lines>, code: seq<Lines>, k: nat)
    requires |prose| == |code| + 1 && k < |code|
    ensures var lines, at := Weave(prose, code, 0), Extent(prose, code, k);
      && Extent(prose, code, k + 1) <= |lines|
      && lines[at..at + |prose[k]|] == prose[k]
      && lines[at + |prose[k]|..Extent(prose, code, k + 1)] == code[k]
  {
    WeaveFrom(prose, code, k);
    DropMore(Weave(prose, code, 0), Extent(prose, code, k), prose[k], code[k], Weave(prose, code, k + 1));
  }

  lemma BeforeIsExtent(prose: seq<Lines>, code: seq<Lines>, k: nat)
    requires |prose| == |code| + 1 && k <= |code|
    ensures Before(Shifted(prose, code), k) == Extent(prose, code, k)
  {
  }

  lemma ShiftedIsPlaced(prose: seq<Lines>, code: seq<Lines>)
    requires |prose| == |code| + 1 && (forall k | 0 <= k < |code| :: code[k] != [])
    ensures Placed(Shifted(prose, code), |Weave(prose, code, 0)|)
  {
    var lines, spans := Weave(prose, code, 0), Shifted(prose, code);
    forall k | 0 <= k < |spans| ensures Fits(spans, k, |lines|) {
      WeaveCut(prose, code, k);
      BeforeIsExtent(prose, code, k);
    }
  }

  lemma SegmentIsBack(prose: seq<Lines>, code: seq<Lines>, k: nat)
    requires |prose| == |code| + 1 && k <= |code|
    requires Placed(Shifted(prose, code), |Weave(prose, code, 0)|)
    ensures Segment(Weave(prose, code, 0), Shifted(prose, code), k) == prose[k]
  {
    BeforeIsExtent(prose, code, k);
    if k < |code| { WeaveCut(prose, code, k); } else { WeaveFrom(prose, code, k); }
  }

  lemma BlockIsBack(prose: seq<Lines>, code: seq<Lines>, k: nat)
    requires |prose| == |code| + 1 && k < |code|
    requires Placed(Shifted(prose, code), |Weave(prose, code, 0)|)
    ensures Block(Weave(prose, code, 0), Shifted(prose, code), k) == code[k]
  {
    WeaveCut(prose, code, k);
  }

  lemma ProseIsBack(prose: seq<Lines>, code: seq<Lines>)
    requires |prose| == |code| + 1 && Placed(Shifted(prose, code), |Weave(prose, code, 0)|)
    ensures Prose(Weave(prose, code, 0), Shifted(prose, code)) == prose
  {
    forall k | 0 <= k <= |code| ensures Prose(Weave(prose, code, 0), Shifted(prose, code))[k] == prose[k] {
      SegmentIsBack(prose, code, k);
    }
  }

  lemma CodeIsBack(prose: seq<Lines>, code: seq<Lines>)
    requires |prose| == |code| + 1 && Placed(Shifted(prose, code), |Weave(prose, code, 0)|)
    ensures Code(Weave(prose, code, 0), Shifted(prose, code)) == code
  {
    forall k | 0 <= k < |code| ensures Code(Weave(prose, code, 0), Shifted(prose, code))[k] == code[k] {
      BlockIsBack(prose, code, k);
    }
  }

  /** Cutting the interleaved parts at the shifted spans gives the parts back. */
  lemma CutsBack(prose: seq<Lines>, code: seq<Lines>)
    requires |prose| == |code| + 1 && (forall k | 0 <= k < |code| :: code[k] != [])
    ensures var lines, spans := Weave(prose, code, 0), Shifted(prose, code);
      && Placed(spans, |lines|) && Prose(lines, spans) == prose && Code(lines, spans) == code
  {
    ShiftedIsPlaced(prose, code);
    ProseIsBack(prose, code);
    CodeIsBack(prose, code);
  }

  function TrimmedEach(parts: seq<Lines>): (trimmed: seq<Lines>)
    ensures |trimmed| == |parts|
  {
    seq(|parts|, k requires 0 <= k < |parts| => Trimmed(parts[k]))
  }

  predicate AllClean(parts: seq<Lines>) {
    forall k | 0 <= k < |parts| :: Clean(parts[k])
  }

  lemma {:induction false} TrimmedAppend(a: Lines, b: Lines)
    ensures Trimmed(a + b) == Trimmed(a) + Trimmed(b)
    decreases |a|
  {
    if a == [] {
      assert a + b == b;
    } else {
      assert (a + b)[1..] == a[1..] + b;
      TrimmedAppend(a[1..], b);
    }
  }

  lemma {:induction false} TrimmedWeave(prose: seq<Lines>, code: seq<Lines>, k: nat)
    requires |prose| == |code| + 1 && k <= |code|
    ensures Trimmed(Weave(prose, code, k)) == Weave(TrimmedEach(prose), TrimmedEach(code), k)
    decreases |code| - k
  {
    if k < |code| {
      TrimmedWeave(prose, code, k + 1);
      TrimmedAppends(prose[k], code[k], Weave(prose, code, k + 1));
    }
  }

  lemma TrimmedAppends(a: Lines, b: Lines, rest: Lines)
    ensures Trimmed(a + b + rest) == Trimmed(a) + Trimmed(b) + Trimmed(rest)
  {
    TrimmedAppend(a + b, rest);
    TrimmedAppend(a, b);
  }

  predicate SameLengths(a: seq<Lines>, b: seq<Lines>) {
    |a| == |b| && forall k | 0 <= k < |a| :: |a[k]| == |b[k]|
  }

  lemma {:induction false} SameExtent(prose: seq<Lines>, code: seq<Lines>, others: seq<Lines>, blocks: seq<Lines>,
                                      k: nat)
    requires |prose| == |code| + 1 && k <= |code| && SameLengths(prose, others) && SameLengths(code, blocks)
    ensures Extent(prose, code, k) == Extent(others, blocks, k)
  {
    if k > 0 { SameExtent(prose, code, others, blocks, k - 1); }
  }

  lemma SameShift(prose: seq<Lines>, code: seq<Lines>, others: seq<Lines>, blocks: seq<Lines>)
    requires |prose| == |code| + 1 && SameLengths(prose, others) && SameLengths(code, blocks)
    ensures Shifted(prose, code) == Shifted(others, blocks)
  {
    forall k | 0 <= k < |code| ensures Shifted(prose, code)[k] == Shifted(others, blocks)[k] {
      SameExtent(prose, code, others, blocks, k);
      SameExtent(prose, code, others, blocks, k + 1);
    }
  }

  lemma TrimmedLengths(parts: seq<Lines>)
    ensures SameLengths(parts, TrimmedEach(parts))
  {
    forall k | 0 <= k < |parts| ensures |TrimmedEach(parts)[k]| == |parts[k]| {
      TrimmedExactly(parts[k]);
    }
  }

  /** Written out, cut at the shifted spans and read back: every part with its lines trimmed. */
  lemma UpdatedParts(prose: seq<Lines>, code: seq<Lines>, updated: Document)
    requires |prose| == |code| + 1 && code != [] && (forall k | 0 <= k < |code| :: code[k] != [])
    requires AllLines(prose) && AllLines(code)
    requires updated == Document(Text(Weave(prose, code, 0)), Shifted(prose, code))
    ensures Parsed(updated) && ProseOf(updated) == TrimmedEach(prose) && CodeOf(updated) == TrimmedEach(code)
  {
    WeaveLines(prose, code, 0);
    WeaveNotEmpty(prose, code);
    LinesOfText(Weave(prose, code, 0));
    TrimmedWeave(prose, code, 0);
    TrimmedLengths(prose);
    TrimmedLengths(code);
    SameShift(prose, code, TrimmedEach(prose), TrimmedEach(code));
    CutsBack(TrimmedEach(prose), TrimmedEach(code));
  }

  /** The update, re-parsed where its blocks now lie. */
  ghost predicate Reparsed(confirmed: Document, current: Document, counterpart: Document, updated: Document)
    requires Parsed(confirmed) && Parsed(current) && Parsed(counterpart)
  {
    && Update(confirmed, current, counterpart) == Some(updated.markdown)
    && |counterpart.spans| == |current.spans|
    && updated.spans == Shifted(ProseOf(counterpart), CodeOf(current))
  }

  lemma SettledShift(prose: seq<Lines>, was: seq<Lines>, now: seq<Lines>)
    requires |prose| == |now| + 1 && |was| == |now| && forall k | 0 <= k < |now| :: now[k] != []
    ensures Shifted(prose, now) == Shifted(prose, Settled(was, now))
    ensures forall k | 0 <= k < |now| :: Settled(was, now)[k] != []
  {
    SettledExactly(was, now);
    SameShift(prose, now, prose, Settled(was, now));
  }

  lemma ReparsedParts(confirmed: Document, current: Document, counterpart: Document, updated: Document)
    requires Parsed(confirmed) && Parsed(current) && Parsed(counterpart)
    requires Reparsed(confirmed, current, counterpart, updated)
    ensures |confirmed.spans| == |current.spans|
    ensures Parsed(updated) && ProseOf(updated) == TrimmedEach(ProseOf(counterpart))
    ensures CodeOf(updated) == TrimmedEach(Settled(CodeOf(confirmed), CodeOf(current)))
  {
    var prose, was, now := ProseOf(counterpart), CodeOf(confirmed), CodeOf(current);
    UpdateInterleaves(confirmed, current, counterpart);
    DocumentLines(counterpart);
    DocumentLines(current);
    SettledLines(was, now);
    SettledShift(prose, was, now);
    UpdatedParts(prose, Settled(was, now), updated);
  }

  lemma TrimmedTwice(lines: Lines)
    ensures Trimmed(Trimmed(lines)) == lines <==> Clean(lines)
  {
    TrimmedExactly(lines);
    if !Clean(lines) {
      var line :| line in lines && EndsInReturn(line);
      var k: nat :| k < |lines| && lines[k] == line;
      TrimmedAt(lines, k);
      TrimmedAt(Trimmed(lines), k);
    }
  }

  lemma TrimmedSettledExactly(was: seq<Lines>, now: seq<Lines>)
    requires |was| == |now|
    ensures TrimmedEach(Settled(was, now)) == now <==> AllClean(now)
  {
    forall k | 0 <= k < |now| ensures TrimmedEach(Settled(was, now))[k] == now[k] <==> Clean(now[k]) {
      TrimmedExactly(now[k]);
      TrimmedTwice(now[k]);
    }
  }

  /** Trimming the whole document: settled blocks of the old source between the trimmed prose. */
  lemma SettledBack(was: seq<Lines>, now: seq<Lines>)
    requires |was| == |now| && AllClean(now)
    ensures Settled(now, was) == TrimmedEach(was)
  {
    forall k | 0 <= k < |now| ensures Settled(now, was)[k] == TrimmedEach(was)[k] {
      TrimmedExactly(now[k]);
    }
  }

  lemma UpdatesBackExactly(confirmed: Document, current: Document, counterpart: Document, updated: Document)
    requires Parsed(confirmed) && Parsed(current) && Parsed(counterpart) && Parsed(updated)
    requires Update(confirmed, current, counterpart).Some? && |updated.spans| == |current.spans|
    ensures Update(current, confirmed, updated).Some? <==> CodeOf(updated) == CodeOf(current)
  {
    AllTextsAgree(current, updated);
    NoChanges(TextsOf(confirmed), TextsOf(current));
    NoChanges(TextsOf(current), TextsOf(confirmed));
  }

  /** Updating back from the current to the confirmed source gives the translation as it was,
      its lines written out and read back, exactly when no current block has a line that ends
      in a carriage return; otherwise it gives nothing. */
  lemma UpdatingBackRestoresExactly(confirmed: Document, current: Document, counterpart: Document, updated: Document)
    requires Parsed(confirmed) && Parsed(current) && Parsed(counterpart)
    requires Reparsed(confirmed, current, counterpart, updated)
    ensures Parsed(updated)
    ensures Update(current, confirmed, updated)
         == if AllClean(CodeOf(current)) then Some(Text(Trimmed(LinesOf(counterpart.markdown)))) else None
  {
    var prose, was, now := ProseOf(counterpart), CodeOf(confirmed), CodeOf(current);
    ReparsedParts(confirmed, current, counterpart, updated);
    TrimmedSettledExactly(was, now);
    UpdatesBackExactly(confirmed, current, counterpart, updated);
    if AllClean(now) {
      UpdateInterleaves(confirmed, current, counterpart);
      UpdateInterleaves(current, confirmed, updated);
      SettledBack(was, now);
      WeaveRestores(LinesOf(counterpart.markdown), counterpart.spans);
      TrimmedWeave(prose, was, 0);
    }
  }

  predicate NoReturnBeforeFeed(s: string) {
    s == "" || (!(|s| >= 2 && s[0] == '\r' && s[1] == '\n') && NoReturnBeforeFeed(s[1..]))
  }

  /** A text whose lines all end in a line feed and nothing else. */
  predicate Normal(s: string) {
    s != "" && s[|s| - 1] == '\n' && NoReturnBeforeFeed(s)
  }

  lemma {:induction false} UnifiedKeeps(s: string)
    requires NoReturnBeforeFeed(s)
    ensures Unified(s) == s
  {
    if s != "" { UnifiedKeeps(s[1..]); }
  }

  /** The text consists of these lines, each ended by a line feed. */
  ghost predicate Consists(s: string, lines: Lines) {
    lines != [] && Split(s) == lines + [""] && Text(lines) == s
  }

  lemma {:induction false} TextOfSplit(s: string) returns (lines: Lines)
    requires s != "" && s[|s| - 1] == '\n'
    ensures Consists(s, lines)
  {
    if |s| == 1 {
      lines := [""];
      TextHead("", []);
      assert [""] + [] == [""];
      assert s == "\n" == "" + "\n";
      assert Split(s[1..]) == [""];
    } else {
      var rest := TextOfSplit(s[1..]);
      if s[0] == '\n' {
        lines := [""] + rest;
        ConsistsAtBreak(s, rest);
      } else {
        lines := [[s[0]] + rest[0]] + rest[1..];
        ConsistsInLine(s, rest);
      }
    }
  }

  lemma ConsistsAtBreak(s: string, rest: Lines)
    requires s != "" && s[0] == '\n' && Consists(s[1..], rest)
    ensures Consists(s, [""] + rest)
  {
    TextHead("", rest);
    assert Split(s) == [""] + (rest + [""]) == ([""] + rest) + [""];
    assert s == "" + ("\n" + s[1..]);
  }

  lemma ConsistsInLine(s: string, rest: Lines)
    requires s != "" && s[0] != '\n' && Consists(s[1..], rest)
    ensures Consists(s, [[s[0]] + rest[0]] + rest[1..])
  {
    assert (rest + [""])[1..] == rest[1..] + [""];
    assert Split(s) == [[s[0]] + rest[0]] + (rest[1..] + [""]) == ([[s[0]] + rest[0]] + rest[1..]) + [""];
    assert rest == [rest[0]] + rest[1..];
    LongerFirstLine(s[0], rest[0], rest[1..]);
    assert s == [s[0]] + s[1..];
  }

  lemma TextHead(line: string, rest: Lines)
    ensures Text([line] + rest) == line + ("\n" + if rest == [] then "" else Text(rest))
  {
    assert ([line] + rest)[1..] == rest;
  }

  lemma LongerFirstLine(c: char, line: string, rest: Lines)
    ensures Text([[c] + line] + rest) == [c] + Text([line] + rest)
  {
    var behind := "\n" + if rest == [] then "" else Text(rest);
    TextHead(line, rest);
    TextHead([c] + line, rest);
    assert [c] + line + behind == [c] + (line + behind);
  }

  /** On a normal text nothing is lost, and updating back gives the translation itself. */
  lemma NormalTextIsKept(s: string)
    requires Normal(s)
    ensures Text(LinesOf(s)) == s && Trimmed(LinesOf(s)) == LinesOf(s)
  {
    UnifiedKeeps(s);
    var lines := TextOfSplit(s);
    assert (lines + [""])[..|lines|] == lines;
    LinesOfGivesLines(s);
    LinesOfText(LinesOf(s));
  }

  /** On a normal translation updating back is an undo under that condition. */
  lemma UpdatingBackIsUndo(confirmed: Document, current: Document, counterpart: Document, updated: Document)
    requires Parsed(confirmed) && Parsed(current) && Parsed(counterpart)
    requires Reparsed(confirmed, current, counterpart, updated) && Normal(counterpart.markdown)
    ensures Parsed(updated)
    ensures Update(current, confirmed, updated) == Some(counterpart.markdown) <==> AllClean(CodeOf(current))
  {
    NormalTextIsKept(counterpart.markdown);
    UpdatingBackRestoresExactly(confirmed, current, counterpart, updated);
  }
}
