/**
 * `rewriteMarkdown` of scripts/project-doc-site.ts: link destinations are located by
 * scanning raw source, collected in visiting order, and spliced into the source from
 * right to left. Documents are given with the positions a Markdown parser reports.
 */
module DocSite {
  import opened Basics
  import opened Texts
  import opened Sorting
  import opened LinkScanner

  // ---------------------------------------------------------------------------
  // Documents
  // ---------------------------------------------------------------------------

  /** Text, or a link, image or definition: `[body](lead destination trail)`. */
  datatype Inline =
    | Text(text: string)
    | Node(kind: Kind, body: seq<Inline>, lead: string, dest: Destination, trail: string)

  function Mark(kind: Kind): char {
    if kind.DefinitionKind? then ':' else '('
  }

  function Bang(kind: Kind): string {
    if kind.ImageKind? then "!" else ""
  }

  /** The end of a node behind its destination. */
  function Rest(kind: Kind, trail: string): string {
    trail + if kind.DefinitionKind? then "" else ")"
  }

  /** A node's source text around a printed body and destination text. */
  function Frame(kind: Kind, body: string, lead: string, d: Destination, text: string, trail: string): string {
    Labelled(Bang(kind), body, Target(Mark(kind), lead, d, text, Rest(kind, trail)))
  }

  function Render(doc: seq<Inline>): string
    decreases doc, 0
  {
    if doc == [] then "" else RenderOne(doc[0]) + Render(doc[1..])
  }

  function RenderOne(x: Inline): string
    decreases x, 1
  {
    match x
    case Text(text) => text
    case Node(kind, body, lead, dest, trail) => Frame(kind, Render(body), lead, dest, DestinationText(dest), trail)
  }

  /** How links, images and definitions are written. */
  lemma NodesAreWritten(body: seq<Inline>, lead: string, dest: Destination, trail: string)
    ensures var middle := "[" + Render(body) + "]";
      var target := lead + (Bracketed(dest, DestinationText(dest)) + trail);
      && RenderOne(Node(LinkKind, body, lead, dest, trail)) == middle + ("(" + target + ")")
      && RenderOne(Node(ImageKind, body, lead, dest, trail)) == "!" + middle + ("(" + target + ")")
      && RenderOne(Node(DefinitionKind, body, lead, dest, trail)) == middle + (":" + target)
  {
    var text := Bracketed(dest, DestinationText(dest));
    assert "(" + (lead + (text + trail) + ")") == "(" + (lead + (text + (trail + ")")));
    assert trail + "" == trail;
    assert "" + "[" + Render(body) + "]" == "[" + Render(body) + "]";
    assert "!" + "[" + Render(body) + "]" == "!" + ("[" + Render(body) + "]");
  }

  /** Every node is one that the scanner reads: balanced label, white space, readable destination. */
  ghost predicate Scannable(doc: seq<Inline>)
    decreases doc, 0
  {
    doc == [] || (ScannableOne(doc[0]) && Scannable(doc[1..]))
  }

  ghost predicate ScannableOne(x: Inline)
    decreases x, 1
  {
    match x
    case Text(_) => true
    case Node(kind, body, lead, dest, trail) =>
      && Balanced(Render(body))
      && (forall c | c in lead :: IsSpace(c))
      && Readable(dest, Rest(kind, trail))
      && Scannable(body)
  }

  /** Whether and where a destination is redirected, decided from the kind and the URL. */
  type Redirect = (Kind, string) -> Option<string>

  /** The destination's text after redirection. */
  function NewText(redirect: Redirect, kind: Kind, dest: Destination): string {
    match redirect(kind, DestinationText(dest))
    case Some(url) => url
    case None => DestinationText(dest)
  }

  /** The same document with every redirected destination replaced. A link's label has
      nodes of its own; an image's alternative text and a definition's label have none. */
  function RenderRedirected(doc: seq<Inline>, redirect: Redirect): string
    decreases doc, 0
  {
    if doc == [] then "" else RedirectedOne(doc[0], redirect) + RenderRedirected(doc[1..], redirect)
  }

  function RedirectedOne(x: Inline, redirect: Redirect): string
    decreases x, 1
  {
    match x
    case Text(text) => text
    case Node(kind, body, lead, dest, trail) =>
      Frame(kind, RedirectedBody(kind, body, redirect), lead, dest, NewText(redirect, kind, dest), trail)
  }

  function RedirectedBody(kind: Kind, body: seq<Inline>, redirect: Redirect): string
    decreases body, 2
  {
    if kind.LinkKind? then RenderRedirected(body, redirect) else Render(body)
  }

  // ---------------------------------------------------------------------------
  // Rewriting
  // ---------------------------------------------------------------------------

  /** A node as the parser reports it. */
  datatype Site = Site(kind: Kind, url: string, start: nat, end: nat)

  /** The parser's nodes in visiting order: a node before the nodes in its label. */
  function SitesOf(doc: seq<Inline>, at: nat): seq<Site>
    decreases doc, 0
  {
    if doc == [] then [] else SitesOfOne(doc[0], at) + SitesOf(doc[1..], at + |RenderOne(doc[0])|)
  }

  function SitesOfOne(x: Inline, at: nat): seq<Site>
    decreases x, 1
  {
    match x
    case Text(_) => []
    case Node(kind, body, lead, dest, trail) =>
      [Site(kind, DestinationText(dest), at, at + |RenderOne(x)|)]
      + if kind.LinkKind? then SitesOf(body, at + |Bang(kind)| + 1) else []
  }

  datatype Replacement = Replacement(start: nat, end: nat, value: string)

  /** The replacement one node asks for, if any, or the scanner's failure. */
  datatype Asked = Nothing | Replace(replacement: Replacement) | Unreadable(failure: Located)

  function Ask(source: string, site: Site, redirect: Redirect): Asked
    requires site.start <= site.end <= |source|
  {
    Answer(site, DestinationRange(source[site.start..site.end], site.kind), redirect)
  }

  function Answer(site: Site, found: Located, redirect: Redirect): Asked {
    match redirect(site.kind, site.url)
    case None => Nothing
    case Some(url) =>
      if found.Range? then Replace(Replacement(site.start + found.start, site.start + found.end, url))
      else Unreadable(found)
  }

  /** `projected.slice(0, start) + value + projected.slice(end)`, with slice's clamping. */
  function Splice(s: string, r: Replacement): string {
    (if r.start <= |s| then s[..r.start] else s) + r.value + if r.end <= |s| then s[r.end..] else ""
  }

  function ApplyAll(s: string, rs: seq<Replacement>): string
    decreases |rs|
  {
    if rs == [] then s else ApplyAll(Splice(s, rs[0]), rs[1..])
  }

  /** `(a, b) => b.start - a.start`. */
  function FromRight(): Order<Replacement> {
    (a: Replacement, b: Replacement) => a.start >= b.start
  }

  /** Replacements that start at different offsets can be sorted in one way only. */
  lemma DescendingIsUnique(rs: seq<Replacement>, descending: seq<Replacement>)
    requires multiset(rs) == multiset(descending)
    requires forall i, j | 0 <= i < j < |descending| :: descending[i].start > descending[j].start
    ensures Sorted(rs, FromRight()) == descending
  {
    SortedAscends(rs, FromRight());
    PairwiseAscends(descending, FromRight());
    forall a, b | a in Sorted(rs, FromRight()) && b in Sorted(rs, FromRight()) && a.start == b.start ensures a == b {
      SameStart(Sorted(rs, FromRight()), descending, a, b);
    }
    AscendingIsUnique(Sorted(rs, FromRight()), descending, FromRight());
  }

  lemma SameStart(rs: seq<Replacement>, descending: seq<Replacement>, a: Replacement, b: Replacement)
    requires multiset(rs) == multiset(descending) && a in rs && b in rs && a.start == b.start
    requires forall i, j | 0 <= i < j < |descending| :: descending[i].start > descending[j].start
    ensures a == b
  {
    assert a in multiset(descending) && b in multiset(descending);
    var i: nat :| i < |descending| && descending[i] == a;
    var j: nat :| j < |descending| && descending[j] == b;
  }

  lemma {:induction false} ApplyAppend(s: string, a: seq<Replacement>, b: seq<Replacement>)
    ensures ApplyAll(s, a + b) == ApplyAll(ApplyAll(s, a), b)
    decreases |a|
  {
    if a == [] {
      assert a + b == b;
    } else {
      assert (a + b)[1..] == a[1..] + b;
      ApplyAppend(Splice(s, a[0]), a[1..], b);
    }
  }

  // ---------------------------------------------------------------------------
  // Where the replacements lie
  // ---------------------------------------------------------------------------

  /** Offset of the destination's text in a node. */
  function TextStart(kind: Kind, body: string, lead: string, d: Destination): nat {
    |Bang(kind)| + |body| + 3 + |lead| + if d.Angle? then 1 else 0
  }

  /** Where a node's label starts. */
  function Inside(x: Inline, at: nat): nat
    requires x.Node?
  {
    at + |Bang(x.kind)| + 1
  }

  function OwnReplacement(x: Inline, at: nat, redirect: Redirect): seq<Replacement>
    requires x.Node?
  {
    match redirect(x.kind, DestinationText(x.dest))
    case None => []
    case Some(url) =>
      var start := at + TextStart(x.kind, Render(x.body), x.lead, x.dest);
      [Replacement(start, start + |DestinationText(x.dest)|, url)]
  }

  /** The replacements in visiting order. */
  function Visiting(doc: seq<Inline>, at: nat, redirect: Redirect): seq<Replacement>
    decreases doc, 0
  {
    if doc == [] then [] else VisitingOne(doc[0], at, redirect) + Visiting(doc[1..], at + |RenderOne(doc[0])|, redirect)
  }

  function VisitingOne(x: Inline, at: nat, redirect: Redirect): seq<Replacement>
    decreases x, 1
  {
    if x.Text? then []
    else OwnReplacement(x, at, redirect)
         + if x.kind.LinkKind? then Visiting(x.body, Inside(x, at), redirect) else []
  }

  /** The replacements from right to left. */
  function Descending(doc: seq<Inline>, at: nat, redirect: Redirect): seq<Replacement>
    decreases doc, 0
  {
    if doc == [] then []
    else Descending(doc[1..], at + |RenderOne(doc[0])|, redirect) + DescendingOne(doc[0], at, redirect)
  }

  function DescendingOne(x: Inline, at: nat, redirect: Redirect): seq<Replacement>
    decreases x, 1
  {
    if x.Text? then []
    else OwnReplacement(x, at, redirect)
         + if x.kind.LinkKind? then Descending(x.body, Inside(x, at), redirect) else []
  }

  lemma {:induction false} SameReplacements(doc: seq<Inline>, at: nat, redirect: Redirect)
    ensures multiset(Visiting(doc, at, redirect)) == multiset(Descending(doc, at, redirect))
    decreases doc, 0
  {
    if doc != [] {
      SameReplacements(doc[1..], at + |RenderOne(doc[0])|, redirect);
      SameReplacementsOne(doc[0], at, redirect);
      var behind := at + |RenderOne(doc[0])|;
      Exchange(VisitingOne(doc[0], at, redirect), Visiting(doc[1..], behind, redirect),
               DescendingOne(doc[0], at, redirect), Descending(doc[1..], behind, redirect));
    }
  }

  lemma Exchange(a: seq<Replacement>, b: seq<Replacement>, c: seq<Replacement>, d: seq<Replacement>)
    requires multiset(a) == multiset(c) && multiset(b) == multiset(d)
    ensures multiset(a + b) == multiset(d + c)
  {
  }

  lemma {:induction false} SameReplacementsOne(x: Inline, at: nat, redirect: Redirect)
    ensures multiset(VisitingOne(x, at, redirect)) == multiset(DescendingOne(x, at, redirect))
    decreases x, 1
  {
    if x.Node? && x.kind.LinkKind? {
      SameReplacements(x.body, Inside(x, at), redirect);
    }
  }

  /** Strictly descending, pairwise disjoint, and within the open interval. */
  ghost predicate Disjoint(rs: seq<Replacement>, lo: nat, hi: nat) {
    && (forall i | 0 <= i < |rs| :: lo < rs[i].start <= rs[i].end <= hi)
    && (forall i, j | 0 <= i < j < |rs| :: rs[j].end < rs[i].start)
  }

  lemma DisjointAppend(a: seq<Replacement>, b: seq<Replacement>, lo: nat, mid: nat, hi: nat)
    requires Disjoint(a, mid, hi) && Disjoint(b, lo, mid) && lo <= mid <= hi
    ensures Disjoint(a + b, lo, hi)
  {
  }

  lemma FrameLength(kind: Kind, body: string, lead: string, d: Destination, text: string, trail: string)
    ensures |Frame(kind, body, lead, d, text, trail)| >= TextStart(kind, body, lead, d) + |text|
  {
  }

  /** Destinations never overlap: an image in a link's label lies before the link's own destination. */
  lemma {:induction false} ReplacementsDisjoint(doc: seq<Inline>, at: nat, redirect: Redirect)
    ensures Disjoint(Descending(doc, at, redirect), at, at + |Render(doc)|)
    decreases doc, 0
  {
    if doc != [] {
      var mid := at + |RenderOne(doc[0])|;
      ReplacementsDisjoint(doc[1..], mid, redirect);
      OneDisjoint(doc[0], at, redirect);
      DisjointAppend(Descending(doc[1..], mid, redirect), DescendingOne(doc[0], at, redirect), at, mid,
                     at + |Render(doc)|);
    }
  }

  lemma {:induction false} OneDisjoint(x: Inline, at: nat, redirect: Redirect)
    ensures Disjoint(DescendingOne(x, at, redirect), at, at + |RenderOne(x)|)
    decreases x, 1
  {
    if x.Node? {
      var own, mid, end := OwnReplacement(x, at, redirect), Inside(x, at) + |Render(x.body)|, at + |RenderOne(x)|;
      assert mid <= end && Disjoint(own, mid, end) by { OwnDisjoint(x, at, redirect); }
      DescendingParts(x, at, redirect);
      if x.kind.LinkKind? {
        ReplacementsDisjoint(x.body, Inside(x, at), redirect);
        DisjointAppend(own, Descending(x.body, Inside(x, at), redirect), Inside(x, at), mid, end);
        DisjointWider(own + Descending(x.body, Inside(x, at), redirect), Inside(x, at), at, end);
      } else {
        DisjointWider(own, mid, at, end);
      }
    }
  }

  lemma DescendingParts(x: Inline, at: nat, redirect: Redirect)
    requires x.Node?
    ensures DescendingOne(x, at, redirect) ==
      if x.kind.LinkKind? then OwnReplacement(x, at, redirect) + Descending(x.body, Inside(x, at), redirect)
      else OwnReplacement(x, at, redirect)
  {
    assert OwnReplacement(x, at, redirect) + [] == OwnReplacement(x, at, redirect);
  }

  lemma DisjointWider(rs: seq<Replacement>, from: nat, lo: nat, hi: nat)
    requires Disjoint(rs, from, hi) && lo <= from
    ensures Disjoint(rs, lo, hi)
  {
  }

  lemma OwnDisjoint(x: Inline, at: nat, redirect: Redirect)
    requires x.Node?
    ensures Inside(x, at) + |Render(x.body)| <= at + |RenderOne(x)|
    ensures Disjoint(OwnReplacement(x, at, redirect), Inside(x, at) + |Render(x.body)|, at + |RenderOne(x)|)
  {
    FrameLength(x.kind, Render(x.body), x.lead, x.dest, DestinationText(x.dest), x.trail);
  }

  // ---------------------------------------------------------------------------
  // Splicing from right to left is simultaneous substitution
  // ---------------------------------------------------------------------------

  lemma SpliceMiddle(front: string, was: string, back: string, value: string)
    ensures Splice(front + was + back, Replacement(|front|, |front| + |was|, value)) == front + value + back
  {
    var s := front + was + back;
    assert s[..|front|] == front && s[|front| + |was|..] == back;
  }

  function FrontOf(kind: Kind, body: string, lead: string, d: Destination): string {
    Bang(kind) + "[" + body + "]" + [Mark(kind)] + lead + if d.Angle? then "<" else ""
  }

  function BackOf(kind: Kind, d: Destination, trail: string): string {
    (if d.Angle? then ">" else "") + Rest(kind, trail)
  }

  lemma FrameSplit(kind: Kind, body: string, lead: string, d: Destination, text: string, trail: string)
    ensures Frame(kind, body, lead, d, text, trail) == FrontOf(kind, body, lead, d) + text + BackOf(kind, d, trail)
    ensures |FrontOf(kind, body, lead, d)| == TextStart(kind, body, lead, d)
  {
    var open, close := if d.Angle? then "<" else "", if d.Angle? then ">" else "";
    assert Bracketed(d, text) == open + text + close;
    Regroup(Bang(kind) + "[" + body + "]", [Mark(kind)], lead, open, text, close, Rest(kind, trail));
  }

  lemma Regroup(head: string, mark: string, lead: string, open: string, text: string, close: string, rest: string)
    ensures head + (mark + (lead + (open + text + close + rest))) == (head + mark + lead + open) + text + (close + rest)
  {
  }

  function TailOf(kind: Kind, lead: string, d: Destination, text: string, trail: string): string {
    "]" + ([Mark(kind)] + (lead + (Bracketed(d, text) + Rest(kind, trail))))
  }

  lemma FrameBody(kind: Kind, body: string, lead: string, d: Destination, text: string, trail: string)
    ensures Frame(kind, body, lead, d, text, trail) == (Bang(kind) + "[") + body + TailOf(kind, lead, d, text, trail)
  {
  }

  /** Splicing in these replacements turns one text into another, between any neighbours. */
  ghost predicate Becomes(front: string, was: string, back: string, rs: seq<Replacement>, now: string) {
    ApplyAll(front + was + back, rs) == front + now + back
  }

  lemma BecomesBoth(front: string, one: string, rest: string, back: string, rs: seq<Replacement>, ts: seq<Replacement>,
                    newOne: string, newRest: string)
    requires Becomes(front + one, rest, back, ts, newRest)
    requires Becomes(front, one, newRest + back, rs, newOne)
    ensures Becomes(front, one + rest, back, ts + rs, newOne + newRest)
  {
    ApplyAppend(front + (one + rest) + back, ts, rs);
    assert front + (one + rest) + back == (front + one) + rest + back;
    assert front + one + (newRest + back) == (front + one) + newRest + back;
    assert front + newOne + (newRest + back) == front + (newOne + newRest) + back;
  }

  lemma BecomesWithin(front: string, was: string, open: string, body: string, tail: string, back: string,
                      rs: seq<Replacement>, ts: seq<Replacement>, now: string)
    requires Becomes(front, was, back, rs, open + body + tail)
    requires Becomes(front + open, body, tail + back, ts, now)
    ensures Becomes(front, was, back, rs + ts, open + now + tail)
  {
    ApplyAppend(front + was + back, rs, ts);
    Enclose(front, open, body, tail, back);
    Enclose(front, open, now, tail, back);
  }

  lemma {:induction false} ApplyDoc(front: string, doc: seq<Inline>, back: string, redirect: Redirect)
    ensures Becomes(front, Render(doc), back, Descending(doc, |front|, redirect), RenderRedirected(doc, redirect))
    decreases doc, 0
  {
    if doc != [] {
      var x, rest := doc[0], doc[1..];
      ApplyDoc(front + RenderOne(x), rest, back, redirect);
      ApplyOne(front, x, RenderRedirected(rest, redirect) + back, redirect);
      BecomesBoth(front, RenderOne(x), Render(rest), back,
                  DescendingOne(x, |front|, redirect), Descending(rest, |front| + |RenderOne(x)|, redirect),
                  RedirectedOne(x, redirect), RenderRedirected(rest, redirect));
    }
  }

  lemma {:induction false} ApplyOne(front: string, x: Inline, back: string, redirect: Redirect)
    ensures Becomes(front, RenderOne(x), back, DescendingOne(x, |front|, redirect), RedirectedOne(x, redirect))
    decreases x, 1
  {
    if x.Node? {
      ApplyOwn(front, x, back, redirect);
      if x.kind.LinkKind? {
        var tail := TailOf(x.kind, x.lead, x.dest, NewText(redirect, x.kind, x.dest), x.trail);
        ApplyDoc(front + (Bang(x.kind) + "["), x.body, tail + back, redirect);
        ApplyLink(front, x, back, redirect, tail);
      } else {
        assert OwnReplacement(x, |front|, redirect) + [] == OwnReplacement(x, |front|, redirect);
      }
    }
  }

  lemma ApplyLink(front: string, x: Inline, back: string, redirect: Redirect, tail: string)
    requires x.Node? && x.kind.LinkKind?
    requires tail == TailOf(x.kind, x.lead, x.dest, NewText(redirect, x.kind, x.dest), x.trail)
    requires Becomes(front, RenderOne(x), back, OwnReplacement(x, |front|, redirect),
                     Frame(x.kind, Render(x.body), x.lead, x.dest, NewText(redirect, x.kind, x.dest), x.trail))
    requires Becomes(front + (Bang(x.kind) + "["), Render(x.body), tail + back,
                     Descending(x.body, Inside(x, |front|), redirect), RenderRedirected(x.body, redirect))
    ensures Becomes(front, RenderOne(x), back, DescendingOne(x, |front|, redirect), RedirectedOne(x, redirect))
  {
    var text := NewText(redirect, x.kind, x.dest);
    FrameBody(x.kind, Render(x.body), x.lead, x.dest, text, x.trail);
    FrameBody(x.kind, RenderRedirected(x.body, redirect), x.lead, x.dest, text, x.trail);
    BecomesWithin(front, RenderOne(x), Bang(x.kind) + "[", Render(x.body), tail, back,
                  OwnReplacement(x, |front|, redirect), Descending(x.body, Inside(x, |front|), redirect),
                  RenderRedirected(x.body, redirect));
  }

  lemma Enclose(front: string, open: string, body: string, tail: string, back: string)
    ensures front + (open + body + tail) + back == (front + open) + body + (tail + back)
  {
  }

  lemma Bare(text: string)
    ensures "" + text + "" == text
  {
  }

  /** A node's own replacement changes its destination's text and nothing else. */
  lemma ApplyOwn(front: string, x: Inline, back: string, redirect: Redirect)
    requires x.Node?
    ensures Becomes(front, RenderOne(x), back, OwnReplacement(x, |front|, redirect),
                    Frame(x.kind, Render(x.body), x.lead, x.dest, NewText(redirect, x.kind, x.dest), x.trail))
  {
    var was, now := DestinationText(x.dest), NewText(redirect, x.kind, x.dest);
    var open, close := FrontOf(x.kind, Render(x.body), x.lead, x.dest), BackOf(x.kind, x.dest, x.trail);
    FrameSplit(x.kind, Render(x.body), x.lead, x.dest, was, x.trail);
    FrameSplit(x.kind, Render(x.body), x.lead, x.dest, now, x.trail);
    Enclose(front, open, was, close, back);
    Enclose(front, open, now, close, back);
    SpliceMiddle(front + open, was, close + back, now);
  }

  // ---------------------------------------------------------------------------
  // Collecting the replacements
  // ---------------------------------------------------------------------------

  datatype Collected = Collected(replacements: seq<Replacement>) | Failed(failure: Located)

  ghost predicate InSource(source: string, sites: seq<Site>) {
    forall site | site in sites :: site.start <= site.end <= |source|
  }

  function Collect(source: string, sites: seq<Site>, redirect: Redirect): Collected
    requires InSource(source, sites)
    decreases |sites|
  {
    if sites == [] then Collected([])
    else Before(Ask(source, sites[0], redirect), Collect(source, sites[1..], redirect))
  }

  /** One answer in front of those collected behind it; the first failure wins. */
  function Before(asked: Asked, later: Collected): Collected {
    match asked
    case Nothing => later
    case Unreadable(failure) => Failed(failure)
    case Replace(r) => Behind([r], later)
  }

  /** What is collected when these replacements were collected first. */
  function Behind(rs: seq<Replacement>, later: Collected): Collected {
    match later
    case Failed(_) => later
    case Collected(ts) => Collected(rs + ts)
  }

  lemma BeforeBehind(asked: Asked, rs: seq<Replacement>, later: Collected)
    requires Before(asked, Collected(rs)).Collected?
    ensures Before(asked, Behind(rs, later)) == Behind(Before(asked, Collected(rs)).replacements, later)
  {
    if asked.Replace? && later.Collected? {
      assert [asked.replacement] + (rs + later.replacements) == ([asked.replacement] + rs) + later.replacements;
    }
  }

  lemma {:induction false} CollectAppend(source: string, a: seq<Site>, b: seq<Site>, redirect: Redirect)
    requires InSource(source, a) && InSource(source, b) && InSource(source, a + b)
    requires Collect(source, a, redirect).Collected?
    ensures Collect(source, a + b, redirect)
      == Behind(Collect(source, a, redirect).replacements, Collect(source, b, redirect))
    decreases |a|
  {
    if a == [] {
      assert a + b == b;
      BehindNothing(Collect(source, b, redirect));
    } else {
      assert (a + b)[1..] == a[1..] + b;
      CollectAppend(source, a[1..], b, redirect);
      BeforeBehind(Ask(source, a[0], redirect), Collect(source, a[1..], redirect).replacements,
                   Collect(source, b, redirect));
    }
  }

  lemma BehindNothing(later: Collected)
    ensures Behind([], later) == later
  {
  }

  /** `text` is the source's text at an offset. */
  ghost predicate Stands(text: string, source: string, at: nat) {
    at + |text| <= |source| && source[at..at + |text|] == text
  }

  lemma SliceOfSlice(s: string, from: nat, to: nat, i: nat, j: nat)
    requires i <= j && from + j <= to <= |s|
    ensures s[from..to][i..j] == s[from + i..from + j]
  {
    var part := s[from..to];
    forall k | 0 <= k < j - i ensures part[i..j][k] == s[from + i..from + j][k] {
      assert part[i..j][k] == part[i + k];
    }
  }

  lemma StandsInside(front: string, text: string, back: string, source: string, at: nat)
    requires Stands(front + text + back, source, at)
    ensures Stands(text, source, at + |front|)
  {
    var whole := front + text + back;
    assert text == whole[|front|..|front| + |text|];
    SliceOfSlice(source, at, at + |whole|, |front|, |front| + |text|);
  }

  lemma StandsInParts(front: string, back: string, source: string, at: nat)
    requires Stands(front + back, source, at)
    ensures Stands(front, source, at) && Stands(back, source, at + |front|)
  {
    assert "" + front + back == front + back;
    StandsInside("", front, back, source, at);
    assert front + back + "" == front + back;
    StandsInside(front, back, "", source, at);
  }

  /** Collecting from these sites succeeds with these replacements. */
  ghost predicate Collects(source: string, sites: seq<Site>, redirect: Redirect, rs: seq<Replacement>) {
    InSource(source, sites) && Collect(source, sites, redirect) == Collected(rs)
  }

  lemma CollectsBoth(source: string, a: seq<Site>, b: seq<Site>, redirect: Redirect, rs: seq<Replacement>,
                     ts: seq<Replacement>)
    requires Collects(source, a, redirect, rs) && Collects(source, b, redirect, ts)
    ensures Collects(source, a + b, redirect, rs + ts)
  {
    assert InSource(source, a + b);
    CollectAppend(source, a, b, redirect);
  }

  /** On a scannable document every site yields its own replacement, in visiting order. */
  lemma {:induction false} CollectDoc(source: string, at: nat, doc: seq<Inline>, redirect: Redirect)
    requires Scannable(doc) && Stands(Render(doc), source, at)
    ensures Collects(source, SitesOf(doc, at), redirect, Visiting(doc, at, redirect))
    decreases doc, 0
  {
    if doc != [] {
      var x, rest, behind := doc[0], doc[1..], at + |RenderOne(doc[0])|;
      assert Stands(RenderOne(x), source, at) && Stands(Render(rest), source, behind) by {
        StandsInParts(RenderOne(x), Render(rest), source, at);
      }
      assert Collects(source, SitesOfOne(x, at), redirect, VisitingOne(x, at, redirect)) by {
        CollectOne(source, at, x, redirect);
      }
      assert Collects(source, SitesOf(rest, behind), redirect, Visiting(rest, behind, redirect)) by {
        CollectDoc(source, behind, rest, redirect);
      }
      CollectFirst(source, at, x, rest, redirect, behind);
      assert [x] + rest == doc;
    }
  }

  lemma CollectFirst(source: string, at: nat, x: Inline, rest: seq<Inline>, redirect: Redirect, behind: nat)
    requires behind == at + |RenderOne(x)|
    requires Collects(source, SitesOfOne(x, at), redirect, VisitingOne(x, at, redirect))
    requires Collects(source, SitesOf(rest, behind), redirect, Visiting(rest, behind, redirect))
    ensures Collects(source, SitesOf([x] + rest, at), redirect, Visiting([x] + rest, at, redirect))
  {
    FirstParts(x, rest, at, redirect, behind);
    CollectsBoth(source, SitesOfOne(x, at), SitesOf(rest, behind), redirect,
                 VisitingOne(x, at, redirect), Visiting(rest, behind, redirect));
  }

  lemma FirstParts(x: Inline, rest: seq<Inline>, at: nat, redirect: Redirect, behind: nat)
    requires behind == at + |RenderOne(x)|
    ensures SitesOf([x] + rest, at) == SitesOfOne(x, at) + SitesOf(rest, behind)
    ensures Visiting([x] + rest, at, redirect) == VisitingOne(x, at, redirect) + Visiting(rest, behind, redirect)
  {
    assert ([x] + rest)[1..] == rest;
  }

  function OwnSite(x: Inline, at: nat): Site
    requires x.Node?
  {
    Site(x.kind, DestinationText(x.dest), at, at + |RenderOne(x)|)
  }

  lemma {:induction false} CollectOne(source: string, at: nat, x: Inline, redirect: Redirect)
    requires ScannableOne(x) && Stands(RenderOne(x), source, at)
    ensures Collects(source, SitesOfOne(x, at), redirect, VisitingOne(x, at, redirect))
    decreases x, 1
  {
    if x.Node? {
      assert Collects(source, [OwnSite(x, at)], redirect, OwnReplacement(x, at, redirect)) by {
        CollectOwn(source, at, x, redirect);
      }
      if x.kind.LinkKind? {
        assert Collects(source, SitesOf(x.body, Inside(x, at)), redirect,
                        Visiting(x.body, Inside(x, at), redirect)) by {
          CollectBody(source, at, x);
          CollectDoc(source, Inside(x, at), x.body, redirect);
        }
        LinkParts(x, at, redirect);
        CollectsBoth(source, [OwnSite(x, at)], SitesOf(x.body, Inside(x, at)), redirect,
                     OwnReplacement(x, at, redirect), Visiting(x.body, Inside(x, at), redirect));
      } else {
        LeafParts(x, at, redirect);
      }
    }
  }

  lemma LinkParts(x: Inline, at: nat, redirect: Redirect)
    requires x.Node? && x.kind.LinkKind?
    ensures SitesOfOne(x, at) == [OwnSite(x, at)] + SitesOf(x.body, Inside(x, at))
    ensures VisitingOne(x, at, redirect) == OwnReplacement(x, at, redirect) + Visiting(x.body, Inside(x, at), redirect)
  {
  }

  lemma LeafParts(x: Inline, at: nat, redirect: Redirect)
    requires x.Node? && !x.kind.LinkKind?
    ensures SitesOfOne(x, at) == [OwnSite(x, at)] && VisitingOne(x, at, redirect) == OwnReplacement(x, at, redirect)
  {
    assert [OwnSite(x, at)] + [] == [OwnSite(x, at)];
    assert OwnReplacement(x, at, redirect) + [] == OwnReplacement(x, at, redirect);
  }

  lemma CollectBody(source: string, at: nat, x: Inline)
    requires x.Node? && Stands(RenderOne(x), source, at)
    ensures Stands(Render(x.body), source, Inside(x, at))
  {
    var open, tail := Bang(x.kind) + "[", TailOf(x.kind, x.lead, x.dest, DestinationText(x.dest), x.trail);
    FrameBody(x.kind, Render(x.body), x.lead, x.dest, DestinationText(x.dest), x.trail);
    StandsInside(open, Render(x.body), tail, source, at);
  }

  lemma CollectOwn(source: string, at: nat, x: Inline, redirect: Redirect)
    requires x.Node? && ScannableOne(x) && Stands(RenderOne(x), source, at)
    ensures Collects(source, [OwnSite(x, at)], redirect, OwnReplacement(x, at, redirect))
  {
    OwnIsFound(x, at, redirect);
    CollectNode(source, at, x.kind, Render(x.body), x.lead, x.dest, x.trail, redirect);
  }

  lemma OwnIsFound(x: Inline, at: nat, redirect: Redirect)
    requires x.Node?
    ensures var text := Frame(x.kind, Render(x.body), x.lead, x.dest, DestinationText(x.dest), x.trail);
      && RenderOne(x) == text
      && OwnSite(x, at) == FrameSite(x.kind, DestinationText(x.dest), at, text)
      && OwnReplacement(x, at, redirect)
         == Found(OwnSite(x, at), TextStart(x.kind, Render(x.body), x.lead, x.dest), redirect)
  {
  }

  function FrameSite(kind: Kind, url: string, at: nat, text: string): Site {
    Site(kind, url, at, at + |text|)
  }

  lemma CollectNode(source: string, at: nat, kind: Kind, body: string, lead: string, d: Destination, trail: string,
                    redirect: Redirect)
    requires Balanced(body) && (forall c | c in lead :: IsSpace(c)) && Readable(d, Rest(kind, trail))
    requires Stands(Frame(kind, body, lead, d, DestinationText(d), trail), source, at)
    ensures var site := FrameSite(kind, DestinationText(d), at, Frame(kind, body, lead, d, DestinationText(d), trail));
      Collects(source, [site], redirect, Found(site, TextStart(kind, body, lead, d), redirect))
  {
    var text := Frame(kind, body, lead, d, DestinationText(d), trail);
    FrameIsLocated(kind, body, lead, d, trail);
    CollectFound(source, FrameSite(kind, DestinationText(d), at, text), redirect, text, TextStart(kind, body, lead, d));
  }

  /** What a site asks for whose destination is found at `start`. */
  function Found(site: Site, start: nat, redirect: Redirect): seq<Replacement> {
    match redirect(site.kind, site.url)
    case None => []
    case Some(url) => [Replacement(site.start + start, site.start + start + |site.url|, url)]
  }

  lemma CollectFound(source: string, site: Site, redirect: Redirect, text: string, start: nat)
    requires site.end == site.start + |text| && Stands(text, source, site.start)
    requires FoundAt(text, site.kind, start, site.url)
    ensures Collects(source, [site], redirect, Found(site, start, redirect))
  {
    assert source[site.start..site.end] == text;
    AnswerFound(site, redirect, start);
    CollectSite(source, site, redirect);
  }

  lemma AnswerFound(site: Site, redirect: Redirect, start: nat)
    ensures Before(Answer(site, Range(start, start + |site.url|), redirect), Collected([]))
         == Collected(Found(site, start, redirect))
  {
    var found := redirect(site.kind, site.url);
    if found.Some? {
      BehindNone(Replacement(site.start + start, site.start + start + |site.url|, found.value));
    }
  }

  lemma BehindNone(r: Replacement)
    ensures Before(Replace(r), Collected([])) == Collected([r])
  {
    assert [r] + [] == [r];
  }

  /** Where the scanner finds a printed node's destination. */
  ghost predicate FoundAt(source: string, kind: Kind, start: nat, text: string) {
    DestinationRange(source, kind) == Range(start, start + |text|)
  }

  lemma FrameIsLocated(kind: Kind, body: string, lead: string, d: Destination, trail: string)
    requires Balanced(body) && (forall c | c in lead :: IsSpace(c)) && Readable(d, Rest(kind, trail))
    ensures FoundAt(Frame(kind, body, lead, d, DestinationText(d), trail), kind, TextStart(kind, body, lead, d),
                    DestinationText(d))
  {
    DestinationIsLocated(kind, Bang(kind), body, Mark(kind), lead, d, Rest(kind, trail));
  }

  lemma CollectSite(source: string, site: Site, redirect: Redirect)
    requires site.start <= site.end <= |source|
    ensures InSource(source, [site])
    ensures Collect(source, [site], redirect) == Before(Ask(source, site, redirect), Collected([]))
  {
  }

  // ---------------------------------------------------------------------------
  // The rewriter
  // ---------------------------------------------------------------------------

  datatype Outcome = Projected(text: string) | Rejected(failure: Located)

  lemma CollectStep(source: string, sites: seq<Site>, i: nat, redirect: Redirect, rs: seq<Replacement>)
    requires i < |sites| && InSource(source, sites)
    ensures Behind(rs, Collect(source, sites[i..], redirect)) ==
      match Ask(source, sites[i], redirect)
      case Nothing => Behind(rs, Collect(source, sites[i + 1..], redirect))
      case Unreadable(failure) => Failed(failure)
      case Replace(r) => Behind(rs + [r], Collect(source, sites[i + 1..], redirect))
  {
    assert sites[i..][1..] == sites[i + 1..];
    var later := Collect(source, sites[i + 1..], redirect);
    var ask := Ask(source, sites[i], redirect);
    if later.Collected? && ask.Replace? {
      assert rs + ([ask.replacement] + later.replacements) == rs + [ask.replacement] + later.replacements;
    }
  }

  /** `rewrite`, one node. */
  method Rewrite(source: string, site: Site, redirect: Redirect) returns (asked: Asked)
    requires site.start <= site.end <= |source|
    ensures asked == Ask(source, site, redirect)
  {
    var url := redirect(site.kind, site.url);
    if url.None? { return Nothing; }
    var found := LocateDestination(source[site.start..site.end], site.kind);
    if !found.Range? { return Unreadable(found); }
    return Replace(Replacement(site.start + found.start, site.start + found.end, url.value));
  }

  /** `rewriteMarkdown`: visit, locate, collect; then sort and splice. */
  method RewriteMarkdown(source: string, sites: seq<Site>, redirect: Redirect) returns (outcome: Outcome)
    requires InSource(source, sites)
    ensures match Collect(source, sites, redirect)
      case Failed(failure) => outcome == Rejected(failure)
      case Collected(rs) => outcome == Projected(ApplyAll(source, Sorted(rs, FromRight())))
  {
    var replacements: seq<Replacement> := [];
    for i := 0 to |sites|
      invariant Collect(source, sites, redirect) == Behind(replacements, Collect(source, sites[i..], redirect))
    {
      var site := sites[i];
      CollectStep(source, sites, i, redirect, replacements);
      var asked := Rewrite(source, site, redirect);
      match asked
      case Nothing =>
      case Unreadable(failure) => return Rejected(failure);
      case Replace(r) => replacements := replacements + [r];
    }
    assert sites[|sites|..] == [] && replacements + [] == replacements;
    var sorted := Sorted(replacements, FromRight());
    var projected := source;
    for i := 0 to |sorted|
      invariant ApplyAll(source, sorted) == ApplyAll(projected, sorted[i..])
    {
      assert sorted[i..][1..] == sorted[i + 1..];
      projected := Splice(projected, sorted[i]);
    }
    assert sorted[|sorted|..] == [];
    return Projected(projected);
  }

  /** For every scannable document the result is the document with exactly the redirected
      destinations replaced, and every other character as it was. */
  lemma RewriteIsRedirection(doc: seq<Inline>, redirect: Redirect)
    requires Scannable(doc)
    ensures var source := Render(doc);
      && InSource(source, SitesOf(doc, 0))
      && Collect(source, SitesOf(doc, 0), redirect).Collected?
      && ApplyAll(source, Sorted(Collect(source, SitesOf(doc, 0), redirect).replacements, FromRight()))
         == RenderRedirected(doc, redirect)
  {
    var source := Render(doc);
    CollectDoc(source, 0, doc, redirect);
    SameReplacements(doc, 0, redirect);
    ReplacementsDisjoint(doc, 0, redirect);
    var visiting := Visiting(doc, 0, redirect);
    DescendingIsUnique(visiting, Descending(doc, 0, redirect));
    ApplyDoc("", doc, "", redirect);
    Bare(source);
    Bare(RenderRedirected(doc, redirect));
  }
}
