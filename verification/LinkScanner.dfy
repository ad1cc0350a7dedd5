/**
 * The offset scanners of scripts/project-doc-site.ts: `labelEnd` and
 * `destinationRange` find, in the raw text of a Markdown link, image or definition
 * (section 6.3 of CommonMark 0.31.2), where its label ends and where its
 * destination lies.
 */
module LinkScanner {
  import opened Basics
  import opened Texts

  // ---------------------------------------------------------------------------
  // Label scanning
  // ---------------------------------------------------------------------------

  /** An offset found `gap` characters further left. */
  function Shift(found: Option<nat>, gap: nat): Option<nat> {
    match found
    case Some(k) => Some(k + gap)
    case None => None
  }

  /** The closing bracket of a label, and the text behind it. */
  datatype Closing = Closing(at: nat, behind: string)

  function Later(found: Option<Closing>, gap: nat): Option<Closing> {
    match found
    case Some(c) => Some(Closing(c.at + gap, c.behind))
    case None => None
  }

  /** The scan of `labelEnd` from its current position. */
  function ScanLabel(s: string, depth: nat): Option<Closing> {
    if s == "" then None
    else if s[0] == '\\' then (if |s| == 1 then None else Later(ScanLabel(s[2..], depth), 2))
    else if s[0] == '[' then Later(ScanLabel(s[1..], depth + 1), 1)
    else if s[0] == ']' && depth == 1 then Some(Closing(0, s[1..]))
    else Later(ScanLabel(s[1..], if s[0] == ']' && depth > 0 then depth - 1 else depth), 1)
  }

  /** The scan starts at the first opening bracket. */
  function LabelEnd(source: string): Option<Closing> {
    if source == "" then None
    else if source[0] == '[' then ScanLabel(source, 0)
    else Later(LabelEnd(source[1..]), 1)
  }

  /** The unescaped characters, or nothing when the text ends inside an escape. */
  function Unescaped(s: string): Option<string> {
    if s == "" then Some("")
    else if s[0] == '\\' then (if |s| == 1 then None else Unescaped(s[2..]))
    else
      match Unescaped(s[1..])
      case None => None
      case Some(u) => Some([s[0]] + u)
  }

  /** Opening minus closing brackets. */
  function Net(u: string): int {
    if u == "" then 0 else (if u[0] == '[' then 1 else if u[0] == ']' then -1 else 0) + Net(u[1..])
  }

  /** Escapes aside, every closing bracket has its opening bracket and vice versa. */
  ghost predicate Balanced(s: string) {
    var u := Unescaped(s);
    u.Some? && Net(u.value) == 0 && forall k | 0 <= k <= |u.value| :: Net(u.value[..k]) >= 0
  }

  /** `label`, entered at `depth`, is passed without being closed, ending at `depth + Net`. */
  ghost predicate StaysOpen(u: string, depth: nat) {
    forall k | 0 <= k <= |u| :: depth + Net(u[..k]) >= 1
  }

  lemma StaysOpenTail(u: string, depth: nat)
    requires u != "" && depth >= 1
    ensures StaysOpen(u, depth) <==> depth + Net(u[..1]) >= 1 && StaysOpen(u[1..], depth + Net(u[..1]))
  {
    forall k | 0 <= k < |u| ensures Net(u[..k + 1]) == Net(u[..1]) + Net(u[1..][..k]) {
      assert u[..k + 1][1..] == u[1..][..k];
      assert u[..1][1..] == "";
    }
    if StaysOpen(u, depth) {
      forall k | 0 <= k <= |u[1..]| ensures depth + Net(u[..1]) + Net(u[1..][..k]) >= 1 {
        assert k + 1 <= |u| && Net(u[..k + 1]) == Net(u[..1]) + Net(u[1..][..k]) by {
          assert u[..k + 1][1..] == u[1..][..k];
          assert u[..1][1..] == "";
        }
      }
    }
    if depth + Net(u[..1]) >= 1 && StaysOpen(u[1..], depth + Net(u[..1])) {
      forall k | 0 <= k <= |u| ensures depth + Net(u[..k]) >= 1 {
        if k > 0 {
          assert u[..k][1..] == u[1..][..k - 1];
          assert u[..1][1..] == "";
        }
      }
    }
  }

  lemma HeadBracket(u: string, c: char, tail: string)
    requires u == [c] + tail
    ensures u != "" && u[0] == c && u[1..] == tail
    ensures Net(u[..1]) == if c == '[' then 1 else if c == ']' then -1 else 0
  {
    assert u[..1][1..] == "";
  }

  /** The scan passes `caption`, unescaped to `u`, and goes on with `rest`. */
  ghost predicate Passes(caption: string, u: string, rest: string, depth: nat) {
    && depth + Net(u) >= 1
    && ScanLabel(caption + rest, depth) == Later(ScanLabel(rest, depth + Net(u)), |caption|)
  }

  /** Scanning a label text that stays open leads on to what follows it. */
  lemma {:induction false} ScanPast(caption: string, rest: string, depth: nat)
    requires depth >= 1 && Unescaped(caption).Some? && StaysOpen(Unescaped(caption).value, depth)
    ensures Passes(caption, Unescaped(caption).value, rest, depth)
    decreases |caption|
  {
    var u := Unescaped(caption).value;
    if caption == "" {
      assert caption + rest == rest;
    } else if caption[0] == '\\' {
      ScanPast(caption[2..], rest, depth);
      PassEscape(caption, u, rest, depth);
    } else {
      HeadBracket(u, caption[0], Unescaped(caption[1..]).value);
      StaysOpenTail(u, depth);
      ScanPast(caption[1..], rest, depth + Net(u[..1]));
      PassCharacter(caption, u, rest, depth);
    }
  }

  lemma PassEscape(caption: string, u: string, rest: string, depth: nat)
    requires |caption| >= 2 && caption[0] == '\\' && Passes(caption[2..], u, rest, depth)
    ensures Passes(caption, u, rest, depth)
  {
    assert (caption + rest)[2..] == caption[2..] + rest;
  }

  /** One unescaped character that leaves the label open. */
  lemma PassCharacter(caption: string, u: string, rest: string, depth: nat)
    requires caption != "" && caption[0] != '\\' && u != "" && u[0] == caption[0]
    requires depth >= 1 && depth + Net(u[..1]) >= 1 && Passes(caption[1..], u[1..], rest, depth + Net(u[..1]))
    ensures Passes(caption, u, rest, depth)
  {
    assert (caption + rest)[1..] == caption[1..] + rest;
    assert u[..1][1..] == "";
  }

  /** A label text that closes too early, or ends inside an escape, is not where the scan stops. */
  lemma {:induction false} ScanMisses(caption: string, rest: string, depth: nat)
    requires depth >= 1
    requires Unescaped(caption).Some? ==> !StaysOpen(Unescaped(caption).value, depth)
    ensures var found := ScanLabel(caption + "]" + rest, depth); found.Some? ==> found.value.at != |caption|
    decreases |caption|
  {
    var s := caption + "]" + rest;
    if caption == "" {
    } else if caption[0] == '\\' {
      if |caption| > 1 {
        assert s[2..] == caption[2..] + "]" + rest;
        ScanMisses(caption[2..], rest, depth);
      }
    } else {
      assert s[1..] == caption[1..] + "]" + rest;
      if Unescaped(caption[1..]).Some? {
        var u := Unescaped(caption).value;
        HeadBracket(u, caption[0], Unescaped(caption[1..]).value);
        StaysOpenTail(u, depth);
        if depth + Net(u[..1]) >= 1 {
          ScanMisses(caption[1..], rest, depth + Net(u[..1]));
        }
      } else if !(caption[0] == ']' && depth == 1) {
        var next := if caption[0] == '[' then depth + 1 else if caption[0] == ']' then depth - 1 else depth;
        ScanMisses(caption[1..], rest, next);
      }
    }
  }

  lemma ScanLabelExactly(caption: string, rest: string)
    ensures ScanLabel(caption + "]" + rest, 1) == Some(Closing(|caption|, rest)) <==> Balanced(caption)
    ensures var found := ScanLabel(caption + "]" + rest, 1);
      found.Some? && found.value.at == |caption| <==> Balanced(caption)
  {
    var u := Unescaped(caption);
    if u.Some? && StaysOpen(u.value, 1) {
      assert caption + "]" + rest == caption + ("]" + rest);
      ScanPast(caption, "]" + rest, 1);
      assert ("]" + rest)[1..] == rest;
      assert u.value[..|u.value|] == u.value;
      ClosesHereOnly("]" + rest, 1 + Net(u.value));
    } else {
      ScanMisses(caption, rest, 1);
    }
  }

  /** `labelEnd` stops at the bracket that closes the label exactly when the label text is
      bracket-balanced up to escapes; code spans and titles with stray brackets are not. */
  lemma {:induction false} LabelEndExactly(prefix: string, caption: string, rest: string)
    requires '[' !in prefix
    ensures var found := LabelEnd(prefix + "[" + caption + "]" + rest);
      && (found.Some? && found.value.at == |prefix| + 1 + |caption| <==> Balanced(caption))
      && (Balanced(caption) ==> found.value.behind == rest)
    decreases |prefix|
  {
    var source := prefix + "[" + caption + "]" + rest;
    if prefix == "" {
      assert source == "[" + (caption + "]" + rest);
      assert source[1..] == caption + "]" + rest;
      ScanLabelExactly(caption, rest);
    } else {
      assert source[1..] == prefix[1..] + "[" + caption + "]" + rest;
      LabelEndExactly(prefix[1..], caption, rest);
    }
  }

  lemma ClosesHereOnly(s: string, depth: nat)
    requires depth >= 1 && s != "" && s[0] == ']'
    ensures depth == 1 ==> ScanLabel(s, depth) == Some(Closing(0, s[1..]))
    ensures depth != 1 && ScanLabel(s, depth).Some? ==> ScanLabel(s, depth).value.at > 0
  {
  }

  // ---------------------------------------------------------------------------
  // Destination scanning
  // ---------------------------------------------------------------------------

  datatype Kind = LinkKind | ImageKind | DefinitionKind

  datatype Located =
    | Range(start: nat, end: nat)
    | NoLabelEnd
    | NoSeparator
    | NoInlineDestination
    | NoAngleEnd

  function ScanAngle(s: string): (r: Option<nat>)
    ensures r.Some? ==> r.value < |s|
  {
    if s == "" then None
    else if s[0] == '\\' then (if |s| == 1 then None else Shift(ScanAngle(s[2..]), 2))
    else if s[0] == '>' then Some(0)
    else Shift(ScanAngle(s[1..]), 1)
  }

  function ScanBare(s: string, depth: nat): (k: nat)
    ensures k <= |s|
  {
    if s == "" then 0
    else if s[0] == '\\' then (if |s| == 1 then 1 else 2 + ScanBare(s[2..], depth))
    else if s[0] == '(' then 1 + ScanBare(s[1..], depth + 1)
    else if s[0] == ')' then (if depth == 0 then 0 else 1 + ScanBare(s[1..], depth - 1))
    else if IsSpace(s[0]) && depth == 0 then 0
    else 1 + ScanBare(s[1..], depth)
  }

  function Offset(l: Located, gap: nat): Located {
    if l.Range? then Range(l.start + gap, l.end + gap) else l
  }

  /** The destination at the front of `s`. */
  function DestinationAt(s: string): Located {
    if s != "" && s[0] == '<' then
      match ScanAngle(s[1..])
      case Some(k) => Range(1, 1 + k)
      case None => NoAngleEnd
    else Range(0, ScanBare(s, 0))
  }

  /** `skipWhitespace`, then the destination. */
  function DestinationPastSpace(s: string): Located {
    if s != "" && IsSpace(s[0]) then Offset(DestinationPastSpace(s[1..]), 1) else DestinationAt(s)
  }

  function DestinationPastColon(s: string): Located {
    if s == "" then NoSeparator
    else if s[0] == ':' then Offset(DestinationPastSpace(s[1..]), 1)
    else Offset(DestinationPastColon(s[1..]), 1)
  }

  /** The destination in what follows the label. */
  function DestinationAfterLabel(s: string, kind: Kind): Located {
    if kind.DefinitionKind? then DestinationPastColon(s)
    else if s == "" || s[0] != '(' then NoInlineDestination
    else Offset(DestinationPastSpace(s[1..]), 1)
  }

  function DestinationRange(raw: string, kind: Kind): Located {
    match LabelEnd(raw)
    case None => NoLabelEnd
    case Some(end) => Offset(DestinationAfterLabel(end.behind, kind), end.at + 1)
  }

  /** A part of a destination outside angle brackets. */
  datatype BareItem =
    | Plain(c: char)
    | Escaped(c: char)
    | Group(items: seq<BareItem>)

  function BareText(items: seq<BareItem>): string
    decreases items, 0
  {
    if items == [] then "" else ItemText(items[0]) + BareText(items[1..])
  }

  function ItemText(item: BareItem): (s: string)
    ensures s != ""
    decreases item, 1
  {
    match item
    case Plain(c) => [c]
    case Escaped(c) => ['\\', c]
    case Group(items) => "(" + BareText(items) + ")"
  }

  /** Parentheses and backslashes occur only in groups and escapes. */
  predicate IsBare(items: seq<BareItem>) {
    forall item | item in items :: IsBareItem(item)
  }

  predicate IsBareItem(item: BareItem) {
    match item
    case Plain(c) => c != '\\' && c != '(' && c != ')'
    case Escaped(_) => true
    case Group(items) => forall i | i in items :: IsBareItem(i)
  }

  /** No `\s` character stands outside parentheses and escapes. */
  predicate SpaceFree(items: seq<BareItem>) {
    forall item | item in items :: item.Plain? ==> !IsSpace(item.c)
  }

  lemma {:induction false} ScanBarePast(items: seq<BareItem>, rest: string, depth: nat)
    requires IsBare(items) && (depth > 0 || SpaceFree(items))
    ensures ScanBare(BareText(items) + rest, depth) == |BareText(items)| + ScanBare(rest, depth)
    decreases items, 0
  {
    if items == [] {
      assert BareText(items) + rest == rest;
    } else {
      var tail := BareText(items[1..]) + rest;
      assert items[0] in items && forall i | i in items[1..] :: i in items;
      assert BareText(items) + rest == ItemText(items[0]) + tail;
      ScanItemPast(items[0], tail, depth);
      ScanBarePast(items[1..], rest, depth);
    }
  }

  lemma {:induction false} ScanItemPast(item: BareItem, tail: string, depth: nat)
    requires IsBareItem(item) && (depth > 0 || (item.Plain? ==> !IsSpace(item.c)))
    ensures ScanBare(ItemText(item) + tail, depth) == |ItemText(item)| + ScanBare(tail, depth)
    decreases item, 1
  {
    match item {
      case Plain(c) => assert (ItemText(item) + tail)[1..] == tail;
      case Escaped(c) => assert (ItemText(item) + tail)[2..] == tail;
      case Group(inner) =>
        assert (ItemText(item) + tail)[1..] == BareText(inner) + (")" + tail);
        ScanBarePast(inner, ")" + tail, depth + 1);
        assert (")" + tail)[1..] == tail;
    }
  }

  lemma {:induction false} ScanBareStops(items: seq<BareItem>, rest: string)
    requires IsBare(items) && !SpaceFree(items)
    ensures ScanBare(BareText(items) + rest, 0) < |BareText(items)|
    decreases items, 0
  {
    var item, tail := items[0], BareText(items[1..]) + rest;
    assert item in items && items == [item] + items[1..];
    assert BareText(items) + rest == ItemText(item) + tail;
    if item.Plain? && IsSpace(item.c) {
    } else {
      ScanBareStops(items[1..], rest);
      ScanItemPast(item, tail, 0);
    }
  }

  /** What may follow a bare destination: nothing, white space, or the closing parenthesis. */
  predicate EndsBare(rest: string) {
    rest == "" || IsSpace(rest[0]) || rest[0] == ')'
  }

  /** The end of a bare destination is found exactly when it holds no unbracketed `\s`
      character (CommonMark only excludes ASCII space and controls there) and does not end
      in a literal backslash with text after it (the scanner takes that for an escape). */
  lemma BareEndExactly(items: seq<BareItem>, slash: bool, rest: string)
    requires IsBare(items) && EndsBare(rest)
    ensures var text := BareText(items) + if slash then "\\" else "";
      ScanBare(text + rest, 0) == |text| <==> SpaceFree(items) && !(slash && rest != "")
  {
    var tail := (if slash then "\\" else "") + rest;
    var text := BareText(items) + if slash then "\\" else "";
    assert text + rest == BareText(items) + tail;
    if SpaceFree(items) {
      ScanBarePast(items, tail, 0);
    } else {
      ScanBareStops(items, tail);
    }
  }

  /** An angle-bracketed destination ends at the first unescaped `>`. */
  lemma {:induction false} AngleEndExactly(text: string, rest: string)
    ensures ScanAngle(text + ">" + rest) == Some(|text|) <==> Unescaped(text).Some? && '>' !in Unescaped(text).value
    decreases |text|
  {
    var s := text + ">" + rest;
    if text == "" {
    } else if text[0] == '\\' {
      if |text| > 1 {
        assert s[2..] == text[2..] + ">" + rest;
        AngleEndExactly(text[2..], rest);
      }
    } else {
      assert s[1..] == text[1..] + ">" + rest;
      AngleEndExactly(text[1..], rest);
    }
  }

  // ---------------------------------------------------------------------------
  // Whole links
  // ---------------------------------------------------------------------------

  datatype Destination = Angle(text: string) | Bare(items: seq<BareItem>)

  function DestinationText(d: Destination): string {
    match d
    case Angle(text) => text
    case Bare(items) => BareText(items)
  }

  /** A destination that the scanner reads in full before `rest`. */
  predicate Readable(d: Destination, rest: string) {
    match d
    case Angle(text) => Unescaped(text).Some? && '>' !in Unescaped(text).value
    case Bare(items) =>
      && IsBare(items) && SpaceFree(items) && EndsBare(rest)
      && (items == [] ==> rest == "" || rest[0] == ')')
      && (items != [] ==> items[0] != Plain('<'))
  }

  function Bracketed(d: Destination, text: string): string {
    if d.Angle? then "<" + text + ">" else text
  }

  lemma DestinationIsNotSpace(d: Destination, rest: string)
    requires Readable(d, rest)
    ensures var body := Bracketed(d, DestinationText(d)) + rest; body == "" || !IsSpace(body[0])
  {
    if d.Bare? && d.items != [] {
      assert d.items[0] in d.items;
      assert BareText(d.items)[0] == ItemText(d.items[0])[0];
    }
  }

  lemma ReadsAngle(text: string, rest: string)
    requires Unescaped(text).Some? && '>' !in Unescaped(text).value
    ensures DestinationAt("<" + text + ">" + rest) == Range(1, 1 + |text|)
  {
    var tail := text + ">" + rest;
    AngleEndExactly(text, rest);
    assert "<" + text + ">" + rest == ['<'] + tail;
    assert (['<'] + tail)[1..] == tail;
  }

  lemma ReadsBare(items: seq<BareItem>, rest: string)
    requires Readable(Bare(items), rest)
    ensures DestinationAt(BareText(items) + rest) == Range(0, |BareText(items)|)
  {
    BareEndExactly(items, false, rest);
    assert BareText(items) + "" == BareText(items);
    if items != [] {
      assert items[0] in items;
      assert BareText(items)[0] == ItemText(items[0])[0] != '<';
    }
  }

  lemma ReadsDestination(d: Destination, rest: string)
    requires Readable(d, rest)
    ensures var start := if d.Angle? then 1 else 0;
      DestinationAt(Bracketed(d, DestinationText(d)) + rest) == Range(start, start + |DestinationText(d)|)
  {
    match d {
      case Angle(text) => ReadsAngle(text, rest);
      case Bare(items) => ReadsBare(items, rest);
    }
  }

  /** A destination behind white space. */
  lemma {:induction false} ReadsPastSpace(lead: string, d: Destination, rest: string)
    requires (forall c | c in lead :: IsSpace(c)) && Readable(d, rest)
    ensures var start := |lead| + if d.Angle? then 1 else 0;
      DestinationPastSpace(lead + (Bracketed(d, DestinationText(d)) + rest))
        == Range(start, start + |DestinationText(d)|)
    decreases |lead|
  {
    var body := Bracketed(d, DestinationText(d)) + rest;
    if lead == "" {
      assert lead + body == body;
      DestinationIsNotSpace(d, rest);
      ReadsDestination(d, rest);
    } else {
      assert (lead + body)[1..] == lead[1..] + body;
      ReadsPastSpace(lead[1..], d, rest);
    }
  }

  /** A label's text in brackets. */
  function Labelled(prefix: string, caption: string, after: string): string {
    prefix + "[" + caption + "]" + after
  }

  /** What follows a label: separator, white space and destination. */
  function Target(mark: char, lead: string, d: Destination, text: string, rest: string): string {
    [mark] + (lead + (Bracketed(d, text) + rest))
  }

  lemma SeparatorIsFirst(kind: Kind, mark: char, s: string)
    requires mark == (if kind.DefinitionKind? then ':' else '(')
    ensures DestinationAfterLabel([mark] + s, kind) == Offset(DestinationPastSpace(s), 1)
  {
    assert ([mark] + s)[1..] == s;
  }

  lemma TargetIsLocated(kind: Kind, mark: char, lead: string, d: Destination, rest: string)
    requires mark == (if kind.DefinitionKind? then ':' else '(')
    requires (forall c | c in lead :: IsSpace(c)) && Readable(d, rest)
    ensures var start := 1 + |lead| + if d.Angle? then 1 else 0;
      DestinationAfterLabel(Target(mark, lead, d, DestinationText(d), rest), kind)
        == Range(start, start + |DestinationText(d)|)
  {
    SeparatorIsFirst(kind, mark, lead + (Bracketed(d, DestinationText(d)) + rest));
    ReadsPastSpace(lead, d, rest);
  }

  lemma BehindLabel(kind: Kind, prefix: string, caption: string, after: string)
    requires Balanced(caption) && '[' !in prefix
    ensures DestinationRange(Labelled(prefix, caption, after), kind)
         == Offset(DestinationAfterLabel(after, kind), |prefix| + |caption| + 2)
  {
    LabelEndExactly(prefix, caption, after);
  }

  /** For a well-formed link, image or definition the range is exactly the destination:
      the label is balanced, the separator follows at once, white space may precede. */
  lemma DestinationIsLocated(kind: Kind, prefix: string, caption: string, mark: char, lead: string, d: Destination,
                             rest: string)
    requires Balanced(caption) && '[' !in prefix && mark == (if kind.DefinitionKind? then ':' else '(')
    requires (forall c | c in lead :: IsSpace(c)) && Readable(d, rest)
    ensures var start := |prefix| + |caption| + 3 + |lead| + if d.Angle? then 1 else 0;
      DestinationRange(Labelled(prefix, caption, Target(mark, lead, d, DestinationText(d), rest)), kind)
      == Range(start, start + |DestinationText(d)|)
  {
    BehindLabel(kind, prefix, caption, Target(mark, lead, d, DestinationText(d), rest));
    TargetIsLocated(kind, mark, lead, d, rest);
  }

  // ---------------------------------------------------------------------------
  // What cannot be located
  // ---------------------------------------------------------------------------

  /** A label ends at a closing bracket, and what follows it is what lies behind. */
  predicate IsClosing(s: string, c: Closing) {
    c.at < |s| && s[c.at] == ']' && c.behind == s[c.at + 1..]
  }

  lemma ClosingLater(s: string, gap: nat, c: Closing)
    requires gap <= |s| && IsClosing(s[gap..], c)
    ensures IsClosing(s, Closing(c.at + gap, c.behind))
  {
    assert s[gap..][c.at + 1..] == s[c.at + gap + 1..];
  }

  lemma {:induction false} ScanFindsClosing(s: string, depth: nat)
    ensures ScanLabel(s, depth).Some? ==> IsClosing(s, ScanLabel(s, depth).value)
    decreases |s|
  {
    if ScanLabel(s, depth).Some? && !(s[0] == ']' && depth == 1) {
      var gap := if s[0] == '\\' then 2 else 1;
      var next := if s[0] == '[' then depth + 1 else if s[0] == ']' && depth > 0 then depth - 1 else depth;
      ScanFindsClosing(s[gap..], next);
      ClosingLater(s, gap, ScanLabel(s[gap..], next).value);
    }
  }

  lemma {:induction false} LabelEndIsClosing(raw: string)
    ensures LabelEnd(raw).Some? ==> IsClosing(raw, LabelEnd(raw).value)
  {
    if LabelEnd(raw).Some? {
      if raw[0] == '[' {
        ScanFindsClosing(raw, 0);
      } else {
        LabelEndIsClosing(raw[1..]);
        ClosingLater(raw, 1, LabelEnd(raw[1..]).value);
      }
    }
  }

  lemma ColonStep(c: char, s: string)
    ensures DestinationPastColon([c] + s)
         == Offset(if c == ':' then DestinationPastSpace(s) else DestinationPastColon(s), 1)
  {
    assert ([c] + s)[1..] == s;
  }

  /** The definition's separator is the first colon behind the label. */
  lemma {:induction false} ColonIsFirst(gap: string, s: string)
    requires ':' !in gap
    ensures DestinationPastColon(gap + ([':'] + s)) == Offset(DestinationPastSpace(s), |gap| + 1)
  {
    var tail := [':'] + s;
    if gap == "" {
      assert gap + tail == tail;
      ColonStep(':', s);
    } else {
      assert gap + tail == [gap[0]] + (gap[1..] + tail);
      ColonStep(gap[0], gap[1..] + tail);
      ColonIsFirst(gap[1..], s);
    }
  }

  /** This bracket closes an angle-bracketed destination: none before it does, and no escape takes it. */
  predicate ClosesAt(s: string, k: nat) {
    k < |s| && s[k] == '>' && Unescaped(s[..k]).Some? && '>' !in Unescaped(s[..k]).value
  }

  lemma {:induction false} AngleEndIsBracket(s: string)
    ensures ScanAngle(s).Some? ==> s[ScanAngle(s).value] == '>'
    decreases |s|
  {
    if s != "" && s[0] == '\\' {
      if |s| > 1 { AngleEndIsBracket(s[2..]); }
    } else if s != "" && s[0] != '>' {
      AngleEndIsBracket(s[1..]);
    }
  }

  lemma AngleIsOpen(s: string)
    ensures ScanAngle(s).None? <==> !exists k: nat :: ClosesAt(s, k)
  {
    if ScanAngle(s).Some? {
      var k := ScanAngle(s).value;
      AngleEndIsBracket(s);
      assert s == s[..k] + ">" + s[k + 1..];
      AngleEndExactly(s[..k], s[k + 1..]);
      assert ClosesAt(s, k);
    }
    forall k: nat | ClosesAt(s, k) ensures ScanAngle(s).Some? {
      assert s == s[..k] + ">" + s[k + 1..];
      AngleEndExactly(s[..k], s[k + 1..]);
    }
  }

  /** Behind white space there is no destination exactly when an angle bracket opens one and none closes it. */
  lemma {:induction false} AngleIsOpenExactly(lead: string, s: string)
    requires (forall c | c in lead :: IsSpace(c)) && (s == "" || !IsSpace(s[0]))
    ensures DestinationPastSpace(lead + s) == NoAngleEnd <==>
      s != "" && s[0] == '<' && !exists k: nat :: ClosesAt(s[1..], k)
    decreases |lead|
  {
    if lead != "" {
      assert (lead + s)[1..] == lead[1..] + s;
      AngleIsOpenExactly(lead[1..], s);
    } else {
      assert lead + s == s;
      if s != "" { AngleIsOpen(s[1..]); }
    }
  }

  /** Which part is missing when there is no destination. */
  lemma LocatingFailsExactly(raw: string, kind: Kind)
    ensures DestinationRange(raw, kind) == NoLabelEnd <==> LabelEnd(raw).None?
    ensures LabelEnd(raw).Some? ==>
      var at := LabelEnd(raw).value.at;
      && at < |raw|
      && (DestinationRange(raw, kind) == NoSeparator <==> kind.DefinitionKind? && ':' !in raw[at + 1..])
      && (DestinationRange(raw, kind) == NoInlineDestination <==>
            !kind.DefinitionKind? && (at + 1 == |raw| || raw[at + 1] != '('))
  {
    LabelEndIsClosing(raw);
    if LabelEnd(raw).Some? {
      var behind := LabelEnd(raw).value.behind;
      SeparatorFails(behind);
      if behind != "" { PastSpaceFails(behind[1..]); }
    }
  }

  lemma {:induction false} PastSpaceFails(s: string)
    ensures DestinationPastSpace(s).Range? || DestinationPastSpace(s) == NoAngleEnd
  {
    if s != "" && IsSpace(s[0]) { PastSpaceFails(s[1..]); }
  }

  lemma {:induction false} SeparatorFails(s: string)
    ensures DestinationPastColon(s) == NoSeparator <==> ':' !in s
    ensures DestinationPastColon(s) !in {NoLabelEnd, NoInlineDestination}
  {
    if s != "" {
      if s[0] == ':' { PastSpaceFails(s[1..]); } else { SeparatorFails(s[1..]); }
    }
  }

  // ---------------------------------------------------------------------------
  // The index loops
  // ---------------------------------------------------------------------------

  lemma Tails(s: string, i: nat)
    requires i < |s|
    ensures s[i..] != "" && s[i..][0] == s[i] && s[i..][1..] == s[i + 1..]
    ensures i + 2 <= |s| ==> s[i..][2..] == s[i + 2..]
  {
  }

  /** Where the label scan ends when it stands at `i`; a scan past the end finds nothing. */
  ghost function LabelFrom(s: string, i: nat, depth: nat): Option<Closing> {
    if i <= |s| then Later(ScanLabel(s[i..], depth), i) else None
  }

  lemma LabelStep(s: string, i: nat, depth: nat)
    requires i < |s|
    ensures LabelFrom(s, i, depth) ==
      if s[i] == '\\' then LabelFrom(s, i + 2, depth)
      else if s[i] == '[' then LabelFrom(s, i + 1, depth + 1)
      else if s[i] == ']' && depth == 1 then Some(Closing(i, s[i + 1..]))
      else LabelFrom(s, i + 1, if s[i] == ']' && depth > 0 then depth - 1 else depth)
  {
    Tails(s, i);
  }

  ghost function FirstLabelFrom(s: string, i: nat): Option<Closing>
    requires i <= |s|
  {
    Later(LabelEnd(s[i..]), i)
  }

  lemma FirstLabelStep(s: string, i: nat)
    requires i < |s|
    ensures FirstLabelFrom(s, i) == if s[i] == '[' then LabelFrom(s, i, 0) else FirstLabelFrom(s, i + 1)
  {
    Tails(s, i);
  }

  /** `source.indexOf('[')`. */
  method FindBracket(source: string) returns (first: Option<nat>)
    ensures first.Some? ==> first.value < |source| && LabelEnd(source) == LabelFrom(source, first.value, 0)
    ensures first.None? ==> LabelEnd(source).None?
  {
    assert source[0..] == source;
    for i := 0 to |source|
      invariant LabelEnd(source) == FirstLabelFrom(source, i)
    {
      FirstLabelStep(source, i);
      if source[i] == '[' { return Some(i); }
    }
    return None;
  }

  method FindLabelEnd(source: string) returns (end: Option<nat>)
    ensures end.None? <==> LabelEnd(source).None?
    ensures end.Some? ==> end.value < |source| && LabelEnd(source) == Some(Closing(end.value, source[end.value + 1..]))
  {
    var first := FindBracket(source);
    if first.None? { return None; }
    var depth: nat, index := 0, first.value;
    while index < |source|
      invariant LabelEnd(source) == LabelFrom(source, index, depth)
    {
      LabelStep(source, index, depth);
      var c := source[index];
      if c == '\\' {
        index := index + 1;
      } else if c == '[' {
        depth := depth + 1;
      } else if c == ']' && depth > 0 {
        depth := depth - 1;
        if depth == 0 { return Some(index); }
      }
      index := index + 1;
    }
    return None;
  }

  /** What the rest of the scan finds from `i`, in positions of the whole text. */
  ghost function PastSpaceFrom(s: string, i: nat): Located
    requires i <= |s|
  {
    Offset(DestinationPastSpace(s[i..]), i)
  }

  lemma PastSpaceStep(s: string, i: nat)
    requires i <= |s|
    ensures PastSpaceFrom(s, i) ==
      if i < |s| && IsSpace(s[i]) then PastSpaceFrom(s, i + 1) else Offset(DestinationAt(s[i..]), i)
  {
    if i < |s| {
      Tails(s, i);
    }
  }

  /** Skips white space; the destination scan carries on from where it stops. */
  method SkipWhitespace(source: string, start: nat) returns (index: nat)
    requires start <= |source|
    ensures start <= index <= |source|
    ensures PastSpaceFrom(source, start) == Offset(DestinationAt(source[index..]), index)
  {
    index := start;
    while index < |source| && IsSpace(source[index])
      invariant start <= index <= |source|
      invariant PastSpaceFrom(source, start) == PastSpaceFrom(source, index)
    {
      PastSpaceStep(source, index);
      index := index + 1;
    }
    PastSpaceStep(source, index);
  }

  ghost function PastColonFrom(s: string, i: nat): Located
    requires i <= |s|
  {
    Offset(DestinationPastColon(s[i..]), i)
  }

  lemma PastColonStep(s: string, i: nat)
    requires i < |s|
    ensures PastColonFrom(s, i) == if s[i] == ':' then PastSpaceFrom(s, i + 1) else PastColonFrom(s, i + 1)
  {
    Tails(s, i);
    PastColonUnfold(s[i..], i);
  }

  lemma PastColonUnfold(s: string, gap: nat)
    requires s != ""
    ensures Offset(DestinationPastColon(s), gap) ==
      if s[0] == ':' then Offset(DestinationPastSpace(s[1..]), gap + 1)
      else Offset(DestinationPastColon(s[1..]), gap + 1)
  {
  }

  /** `rawNode.indexOf(':', start)`. */
  method FindColon(source: string, start: nat) returns (colon: Option<nat>)
    requires start <= |source|
    ensures colon.Some? ==>
      colon.value < |source| && PastColonFrom(source, start) == PastSpaceFrom(source, colon.value + 1)
    ensures colon.None? ==> PastColonFrom(source, start) == NoSeparator
  {
    for i := start to |source|
      invariant PastColonFrom(source, start) == PastColonFrom(source, i)
    {
      PastColonStep(source, i);
      if source[i] == ':' { return Some(i); }
    }
    return None;
  }

  ghost function AngleFrom(s: string, i: nat): Option<nat> {
    if i <= |s| then Shift(ScanAngle(s[i..]), i) else None
  }

  lemma AngleStep(s: string, i: nat)
    requires i < |s|
    ensures AngleFrom(s, i) ==
      if s[i] == '\\' then AngleFrom(s, i + 2) else if s[i] == '>' then Some(i) else AngleFrom(s, i + 1)
  {
    Tails(s, i);
  }

  ghost function BareFrom(s: string, i: nat, depth: nat): nat {
    if i <= |s| then i + ScanBare(s[i..], depth) else |s|
  }

  lemma BareStep(s: string, i: nat, depth: nat)
    requires i < |s|
    ensures BareFrom(s, i, depth) ==
      if s[i] == '\\' then BareFrom(s, i + 2, depth)
      else if s[i] == '(' then BareFrom(s, i + 1, depth + 1)
      else if s[i] == ')' then (if depth == 0 then i else BareFrom(s, i + 1, depth - 1))
      else if IsSpace(s[i]) && depth == 0 then i
      else BareFrom(s, i + 1, depth)
  {
    Tails(s, i);
  }

  /** The loop over a destination in angle brackets, from behind the opening one. */
  method FindAngleEnd(raw: string, start: nat) returns (end: Option<nat>)
    requires start <= |raw|
    ensures end == Shift(ScanAngle(raw[start..]), start)
  {
    var i := start;
    while i < |raw|
      invariant AngleFrom(raw, start) == AngleFrom(raw, i)
    {
      AngleStep(raw, i);
      if raw[i] == '\\' {
        i := i + 1;
      } else if raw[i] == '>' {
        return Some(i);
      }
      i := i + 1;
    }
    return None;
  }

  /** The loop over a destination without angle brackets. */
  method FindBareEnd(raw: string, start: nat) returns (end: nat)
    requires start <= |raw|
    ensures end == start + ScanBare(raw[start..], 0)
  {
    var depth: nat, i := 0, start;
    while i < |raw|
      invariant BareFrom(raw, start, 0) == BareFrom(raw, i, depth)
    {
      BareStep(raw, i, depth);
      var c := raw[i];
      if c == '\\' {
        i := i + 1;
      } else if c == '(' {
        depth := depth + 1;
      } else if c == ')' {
        if depth == 0 { return i; }
        depth := depth - 1;
      } else if IsSpace(c) && depth == 0 {
        return i;
      }
      i := i + 1;
    }
    return |raw|;
  }

  method ScanDestination(raw: string, start: nat) returns (found: Located)
    requires start <= |raw|
    ensures found == Offset(DestinationAt(raw[start..]), start)
  {
    if start < |raw| && raw[start] == '<' {
      Tails(raw, start);
      var end := FindAngleEnd(raw, start + 1);
      if end.None? { return NoAngleEnd; }
      return Range(start + 1, end.value);
    }
    var end := FindBareEnd(raw, start);
    return Range(start, end);
  }

  ghost function AfterLabelFrom(s: string, i: nat, kind: Kind): Located
    requires i <= |s|
  {
    Offset(DestinationAfterLabel(s[i..], kind), i)
  }

  lemma RangeBehindLabel(raw: string, end: nat, kind: Kind)
    requires end < |raw| && LabelEnd(raw) == Some(Closing(end, raw[end + 1..]))
    ensures DestinationRange(raw, kind) == AfterLabelFrom(raw, end + 1, kind)
  {
  }

  lemma AfterLabelStep(raw: string, after: nat, kind: Kind)
    requires after <= |raw|
    ensures AfterLabelFrom(raw, after, kind) ==
      if kind.DefinitionKind? then PastColonFrom(raw, after)
      else if after < |raw| && raw[after] == '(' then PastSpaceFrom(raw, after + 1)
      else NoInlineDestination
  {
    if after < |raw| {
      Tails(raw, after);
    }
  }

  method LocateDestination(raw: string, kind: Kind) returns (found: Located)
    ensures found == DestinationRange(raw, kind)
  {
    var closing := FindLabelEnd(raw);
    if closing.None? { return NoLabelEnd; }
    var after := closing.value + 1;
    RangeBehindLabel(raw, closing.value, kind);
    AfterLabelStep(raw, after, kind);
    var start;
    if kind.DefinitionKind? {
      var colon := FindColon(raw, after);
      if colon.None? { return NoSeparator; }
      start := SkipWhitespace(raw, colon.value + 1);
    } else {
      if after == |raw| || raw[after] != '(' { return NoInlineDestination; }
      start := SkipWhitespace(raw, after + 1);
    }
    found := ScanDestination(raw, start);
  }
}
