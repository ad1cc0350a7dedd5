/**
 * The export search of scripts/gen-config-catalog.ts against the module system: what a file's
 * export of a name is bound to by section 16.2.1.6.3 (ResolveExport) of ECMA-262, and exactly
 * which re-export structures lead the search to that declaration.
 */
module ExportBinding {
  import opened Basics
  import opened Graphs
  import opened Sources
  import opened ExportSearch

  // ---------------------------------------------------------------------------
  // What an exported name is bound to
  // ---------------------------------------------------------------------------

  /** Star exports leave this name out. */
  const DEFAULT := Name("default")

  predicate LocalExport(files: Files, n: Node) {
    Declares(files, n) && n.name in files[n.file].exported
  }

  /** Where the first `export { … } from` of the name leads. */
  function NamedTarget(exports: seq<Export>, name: Name): (r: Option<Node>)
    ensures r.Some? ==> exists e :: e in exports && Target(e, name) == r
  {
    if exports == [] then None
    else
      var first := Target(exports[0], name);
      if exports[0].NamedFrom? && first.Some? then first else NamedTarget(exports[1..], name)
  }

  /** Element `k` of export `i` is the first to export the name, and sends it to `m`. */
  predicate SendsTo(exports: seq<Export>, i: nat, k: nat, name: Name, m: Node) {
    && i < |exports| && exports[i].NamedFrom? && k < |exports[i].elements|
    && exports[i].elements[k].exported == name && m == Node(exports[i].target, exports[i].elements[k].source)
    && forall j, l | 0 <= j <= i && exports[j].NamedFrom? && 0 <= l < |exports[j].elements| && (j == i ==> l < k) ::
         exports[j].elements[l].exported != name
  }

  lemma {:induction false} NamedTargetMeans(exports: seq<Export>, name: Name)
    ensures NamedTarget(exports, name).Some? ==>
      exists i: nat, k: nat :: SendsTo(exports, i, k, name, NamedTarget(exports, name).value)
    ensures NamedTarget(exports, name).None? ==>
      forall e, el | e in exports && e.NamedFrom? && el in e.elements :: el.exported != name
  {
    if exports != [] {
      NamedTargetMeans(exports[1..], name);
      if exports[0].NamedFrom? && Target(exports[0], name).Some? {
        var k := FindIsFirst(exports[0].elements, (el: Element) => el.exported == name);
        assert SendsTo(exports, 0, k, name, NamedTarget(exports, name).value);
      } else if NamedTarget(exports, name).Some? {
        var i: nat, k: nat :| SendsTo(exports[1..], i, k, name, NamedTarget(exports, name).value);
        SentBehind(exports, i, k, name, NamedTarget(exports, name).value);
      }
    }
  }

  lemma SentBehind(exports: seq<Export>, i: nat, k: nat, name: Name, m: Node)
    requires exports != [] && SendsTo(exports[1..], i, k, name, m)
    requires exports[0].NamedFrom? ==> forall el | el in exports[0].elements :: el.exported != name
    ensures SendsTo(exports, i + 1, k, name, m)
  {
    forall j, l | 0 <= j <= i + 1 && exports[j].NamedFrom? && 0 <= l < |exports[j].elements| && (j == i + 1 ==> l < k)
      ensures exports[j].elements[l].exported != name
    {
      if j > 0 { assert exports[j] == exports[1..][j - 1]; }
    }
  }

  /** Where the module system looks for a name that the file does not export itself: a named export
      goes before all star exports. */
  predicate Leads(files: Files, n: Node, m: Node)
    requires n.file in files
  {
    var exports := files[n.file].exports;
    match NamedTarget(exports, n.name)
    case Some(t) => m == t
    case None => n.name != DEFAULT && exists e :: e in exports && e.StarFrom? && m == Node(e.target, n.name)
  }

  /** The name can be resolved to the declaration. */
  least predicate BoundTo(files: Files, n: Node, at: Node) {
    && n.file in files
    && if LocalExport(files, n) then at == n
       else exists m :: Leads(files, n, m) && BoundTo(files, m, at)
  }

  /** It can be resolved to this declaration and to no other, so that it is not ambiguous. */
  ghost predicate IsBinding(files: Files, n: Node, at: Node) {
    BoundTo(files, n, at) && forall b | BoundTo(files, n, b) :: b == at
  }

  /** A program that links: no name is exported twice, and what is re-exported by name is bound. */
  ghost predicate Linked(files: Files) {
    forall n: Node | n.file in files && NamedTarget(files[n.file].exports, n.name).Some? ::
      !LocalExport(files, n) && exists at :: IsBinding(files, n, at)
  }

  predicate AllExported(files: Files) {
    forall f | f in files :: files[f].types <= files[f].exported
  }

  /** The search finds what the name is bound to. */
  ghost predicate Right(files: Files, start: Node) {
    forall at | IsBinding(files, start, at) :: SearchFor(files, start) == Hit(at)
  }

  // ---------------------------------------------------------------------------
  // Re-export structures
  // ---------------------------------------------------------------------------

  /** The export statements of the files, without their declarations. */
  type Structure = map<FileId, seq<Export>>

  function StructureOf(files: Files): Structure {
    map f | f in files :: files[f].exports
  }

  /** Every followed target is there, and none is asked for its default export. */
  predicate Closed(s: Structure) {
    forall f, e | f in s && e in s[f] ::
      && (e.StarFrom? || e.NamedFrom? ==> e.target in s)
      && (e.NamedFrom? ==> forall el | el in e.elements :: el.source != DEFAULT)
  }

  predicate Asks(s: Structure, n: Node, m: Node) {
    n.file in s && exists e :: e in s[n.file] && Target(e, n.name) == Some(m)
  }

  /** Re-exports do not go round in circles. */
  ghost predicate Ranked(s: Structure, rank: Node -> nat) {
    forall n, m | Asks(s, n, m) :: rank(m) < rank(n)
  }

  lemma TargetIsAsked(s: Structure, n: Node, e: Export)
    requires Closed(s) && n.file in s && e in s[n.file] && Target(e, n.name).Some?
    ensures var m := Target(e, n.name).value;
      Asks(s, n, m) && m.file in s && (n.name != DEFAULT || e.NamedFrom? ==> m.name != DEFAULT)
  {
  }

  /** Where named exports lead in the end. */
  function End(s: Structure, rank: Node -> nat, n: Node): (end: Node)
    requires Ranked(s, rank)
    decreases rank(n)
  {
    if n.file !in s then n
    else
      match NamedTarget(s[n.file], n.name)
      case None => n
      case Some(m) =>
        assert Asks(s, n, m);
        End(s, rank, m)
  }

  /** The target of the export statement that the search asks first. */
  function FirstTarget(exports: seq<Export>, name: Name): (r: Option<Node>)
    ensures r.Some? ==> exists e :: e in exports && Target(e, name) == r
    ensures NamedTarget(exports, name).Some? ==> r.Some?
  {
    if exports == [] then None
    else if Target(exports[0], name).Some? then Target(exports[0], name)
    else FirstTarget(exports[1..], name)
  }

  /** What is asked first ends where the name's own named export ends. */
  predicate OrderlyAt(s: Structure, rank: Node -> nat, n: Node)
    requires Ranked(s, rank) && n.file in s
  {
    var named, first := NamedTarget(s[n.file], n.name), FirstTarget(s[n.file], n.name);
    named.Some? ==> End(s, rank, first.value) == End(s, rank, named.value)
  }

  ghost predicate OrderlyBelow(s: Structure, rank: Node -> nat, bound: nat)
    requires Ranked(s, rank)
  {
    forall n: Node | n.file in s && n.name != DEFAULT && rank(n) < bound :: OrderlyAt(s, rank, n)
  }

  ghost predicate Orderly(s: Structure, rank: Node -> nat)
    requires Ranked(s, rank)
  {
    forall n: Node | n.file in s && n.name != DEFAULT :: OrderlyAt(s, rank, n)
  }

  // ---------------------------------------------------------------------------
  // The search without its shared set
  // ---------------------------------------------------------------------------

  /** The first declaration in the order of the export statements. */
  function First(files: Files, rank: Node -> nat, n: Node): Option<Node>
    requires Ranked(StructureOf(files), rank)
    decreases rank(n), 1, 0
  {
    if n.file !in files then None
    else if Declares(files, n) then Some(n)
    else FirstOf(files, rank, n, files[n.file].exports)
  }

  function FirstOf(files: Files, rank: Node -> nat, n: Node, exports: seq<Export>): Option<Node>
    requires Ranked(StructureOf(files), rank)
    requires n.file in files && forall e | e in exports :: e in files[n.file].exports
    decreases rank(n), 0, |exports|
  {
    if exports == [] then None
    else
      match Target(exports[0], n.name)
      case None => FirstOf(files, rank, n, exports[1..])
      case Some(m) =>
        assert exports[0] in exports;
        assert Asks(StructureOf(files), n, m);
        var found := First(files, rank, m);
        if found.Some? then found else FirstOf(files, rank, n, exports[1..])
  }

  function Answer(found: Option<Node>): Outcome {
    match found
    case Some(at) => Hit(at)
    case None => NoHit
  }

  /** What was seen lies above the search or holds nothing. */
  ghost predicate Spent(files: Files, rank: Node -> nat, seen: set<Node>, bound: nat)
    requires Ranked(StructureOf(files), rank)
  {
    forall x | x in seen :: rank(x) >= bound || First(files, rank, x).None?
  }

  ghost predicate Inside(files: Files, root: Name, n: Node, seen: set<Node>, unseen: set<Node>) {
    n in ReexportGraph(files, root) && forall x | x in ReexportGraph(files, root) :: x in seen || x in unseen
  }

  /** Without circles the shared set changes nothing. */
  lemma {:induction false} SearchIsFirst(files: Files, rank: Node -> nat, root: Name, n: Node,
                                         seen: set<Node>, unseen: set<Node>)
    requires Closed(StructureOf(files)) && Ranked(StructureOf(files), rank)
    requires Inside(files, root, n, seen, unseen) && Spent(files, rank, seen, rank(n) + 1)
    ensures var (r, later) := Search(files, n, seen, unseen);
      && r == Answer(First(files, rank, n))
      && (r.NoHit? ==> seen <= later && forall x | x in later && x !in seen :: First(files, rank, x).None?)
    decreases unseen, 0
  {
    if n !in seen && !Declares(files, n) {
      SearchExportsIsFirst(files, rank, root, n, files[n.file].exports, seen + {n}, unseen - {n});
    }
  }

  lemma {:induction false} SearchExportsIsFirst(files: Files, rank: Node -> nat, root: Name, n: Node,
                                                exports: seq<Export>, seen: set<Node>, unseen: set<Node>)
    requires Closed(StructureOf(files)) && Ranked(StructureOf(files), rank)
    requires Inside(files, root, n, seen, unseen) && Spent(files, rank, seen, rank(n))
    requires forall e | e in exports :: e in files[n.file].exports
    ensures var (r, later) := SearchExports(files, exports, n.name, seen, unseen);
      && r == Answer(FirstOf(files, rank, n, exports))
      && (r.NoHit? ==> seen <= later && forall x | x in later && x !in seen :: First(files, rank, x).None?)
    decreases unseen, 1, |exports|
  {
    if exports != [] {
      var next := Target(exports[0], n.name);
      assert exports[0] in exports;
      if next.None? {
        SearchExportsIsFirst(files, rank, root, n, exports[1..], seen, unseen);
      } else {
        TargetIsAsked(StructureOf(files), n, exports[0]);
        TargetStaysInside(files, root, n, exports[0]);
        SearchIsFirst(files, rank, root, next.value, seen, unseen);
        var (r, later) := Search(files, next.value, seen, unseen);
        if r.NoHit? {
          SearchExportsIsFirst(files, rank, root, n, exports[1..], later, unseen);
        }
      }
    }
  }

  lemma SearchForIsFirst(files: Files, rank: Node -> nat, start: Node)
    requires Closed(StructureOf(files)) && Ranked(StructureOf(files), rank) && start.file in files
    ensures SearchFor(files, start) == Answer(First(files, rank, start))
  {
    SearchIsFirst(files, rank, start.name, start, {}, ReexportGraph(files, start.name).Keys);
  }

  // ---------------------------------------------------------------------------
  // Orderly structures
  // ---------------------------------------------------------------------------

  /** In a linked program a name is bound to what the end of its named exports is bound to. */
  lemma {:induction false} BoundThroughEnd(files: Files, rank: Node -> nat, n: Node, at: Node)
    requires Ranked(StructureOf(files), rank) && Linked(files)
    ensures BoundTo(files, n, at) <==> BoundTo(files, End(StructureOf(files), rank, n), at)
    decreases rank(n)
  {
    if n.file in files && NamedTarget(files[n.file].exports, n.name).Some? {
      var m := NamedTarget(files[n.file].exports, n.name).value;
      assert Asks(StructureOf(files), n, m);
      BoundThroughEnd(files, rank, m, at);
      assert Leads(files, n, m);
    }
  }

  lemma SameEndSameBinding(files: Files, rank: Node -> nat, n: Node, m: Node, at: Node)
    requires Ranked(StructureOf(files), rank) && Linked(files)
    requires End(StructureOf(files), rank, n) == End(StructureOf(files), rank, m) && IsBinding(files, n, at)
    ensures IsBinding(files, m, at)
  {
    forall b ensures BoundTo(files, m, b) <==> BoundTo(files, n, b) {
      BoundThroughEnd(files, rank, n, b);
      BoundThroughEnd(files, rank, m, b);
    }
  }

  /** A first hit along the export statements. */
  lemma {:induction false} FirstOfIsFirstTarget(files: Files, rank: Node -> nat, n: Node, exports: seq<Export>)
    requires Ranked(StructureOf(files), rank)
    requires n.file in files && forall e | e in exports :: e in files[n.file].exports
    requires FirstTarget(exports, n.name).Some? && First(files, rank, FirstTarget(exports, n.name).value).Some?
    ensures FirstOf(files, rank, n, exports) == First(files, rank, FirstTarget(exports, n.name).value)
    decreases |exports|
  {
    if Target(exports[0], n.name).None? { FirstOfIsFirstTarget(files, rank, n, exports[1..]); }
  }

  /** What holds for every answer behind the export statements holds for the first one. */
  lemma {:induction false} FirstAmong(files: Files, rank: Node -> nat, n: Node, exports: seq<Export>, at: Option<Node>)
    requires Ranked(StructureOf(files), rank)
    requires n.file in files && forall e | e in exports :: e in files[n.file].exports
    requires forall e | e in exports && Target(e, n.name).Some? ::
      First(files, rank, Target(e, n.name).value) in {None, at}
    requires at.Some? ==>
      exists e :: e in exports && Target(e, n.name).Some? && First(files, rank, Target(e, n.name).value) == at
    ensures FirstOf(files, rank, n, exports) == at
    decreases |exports|
  {
    if exports != [] {
      assert exports == [exports[0]] + exports[1..];
      if Target(exports[0], n.name).None? || First(files, rank, Target(exports[0], n.name).value).None? {
        FirstAmong(files, rank, n, exports[1..], at);
      }
    }
  }

  lemma NoNamedTarget(exports: seq<Export>, name: Name, e: Export)
    requires NamedTarget(exports, name).None? && e in exports && Target(e, name).Some?
    ensures e.StarFrom?
  {
    if exports[0] != e { NoNamedTarget(exports[1..], name, e); }
  }

  /** Below a bound where the structure is orderly, a linked program's search finds the binding, and
      nothing where there is none. */
  lemma {:induction false} FirstIsBinding(files: Files, rank: Node -> nat, n: Node)
    requires Closed(StructureOf(files)) && Ranked(StructureOf(files), rank) && Linked(files) && AllExported(files)
    requires n.file in files && n.name != DEFAULT && OrderlyBelow(StructureOf(files), rank, rank(n) + 1)
    ensures forall at | IsBinding(files, n, at) :: First(files, rank, n) == Some(at)
    ensures (forall at :: !BoundTo(files, n, at)) ==> First(files, rank, n).None?
    decreases rank(n)
  {
    var exports := files[n.file].exports;
    if Declares(files, n) {
      assert LocalExport(files, n);
    } else if NamedTarget(exports, n.name).Some? {
      var first := FirstTarget(exports, n.name).value;
      var e :| e in exports && Target(e, n.name) == Some(first);
      TargetIsAsked(StructureOf(files), n, e);
      FirstIsBinding(files, rank, first);
      assert OrderlyAt(StructureOf(files), rank, n);
      forall at | IsBinding(files, n, at) ensures First(files, rank, n) == Some(at) {
        SameEndSameBinding(files, rank, n, first, at);
        FirstOfIsFirstTarget(files, rank, n, exports);
      }
    } else {
      StarsAreBinding(files, rank, n);
    }
  }

  lemma StarsAreBinding(files: Files, rank: Node -> nat, n: Node)
    requires Closed(StructureOf(files)) && Ranked(StructureOf(files), rank) && Linked(files) && AllExported(files)
    requires n.file in files && n.name != DEFAULT && OrderlyBelow(StructureOf(files), rank, rank(n) + 1)
    requires !Declares(files, n) && NamedTarget(files[n.file].exports, n.name).None?
    ensures forall at | IsBinding(files, n, at) :: First(files, rank, n) == Some(at)
    ensures (forall at :: !BoundTo(files, n, at)) ==> First(files, rank, n).None?
    decreases rank(n), 0
  {
    var exports := files[n.file].exports;
    forall e | e in exports && Target(e, n.name).Some? ensures StarIsBinding(files, rank, n, Target(e, n.name).value) {
      NoNamedTarget(exports, n.name, e);
      TargetIsAsked(StructureOf(files), n, e);
      FirstIsBinding(files, rank, Target(e, n.name).value);
      assert Leads(files, n, Target(e, n.name).value);
    }
    forall at | IsBinding(files, n, at) ensures First(files, rank, n) == Some(at) {
      var m :| Leads(files, n, m) && BoundTo(files, m, at);
      forall e | e in exports && Target(e, n.name).Some?
        ensures First(files, rank, Target(e, n.name).value) in {None, Some(at)}
      {
        assert StarIsBinding(files, rank, n, Target(e, n.name).value);
        TargetAnswers(files, rank, n, Target(e, n.name).value, at);
      }
      TargetAnswers(files, rank, n, m, at);
      FirstAmong(files, rank, n, exports, Some(at));
    }
    if forall at :: !BoundTo(files, n, at) {
      forall e | e in exports && Target(e, n.name).Some? ensures First(files, rank, Target(e, n.name).value).None? {
        var m := Target(e, n.name).value;
        assert StarIsBinding(files, rank, n, m);
        assert forall at | BoundTo(files, m, at) :: BoundTo(files, n, at);
      }
      FirstAmong(files, rank, n, exports, None);
    }
  }

  /** Behind an unambiguous name every star's target answers with the binding or not at all. */
  lemma TargetAnswers(files: Files, rank: Node -> nat, n: Node, m: Node, at: Node)
    requires Ranked(StructureOf(files), rank) && n.file in files && !LocalExport(files, n)
    requires IsBinding(files, n, at) && StarIsBinding(files, rank, n, m)
    ensures First(files, rank, m) in {None, Some(at)}
    ensures BoundTo(files, m, at) ==> First(files, rank, m) == Some(at)
  {
    if b :| BoundTo(files, m, b) {
      assert forall c | BoundTo(files, m, c) :: BoundTo(files, n, c);
      assert IsBinding(files, m, at);
    }
  }

  /** What is known about a star's target. */
  ghost predicate StarIsBinding(files: Files, rank: Node -> nat, n: Node, m: Node)
    requires Ranked(StructureOf(files), rank) && n.file in files
  {
    && Leads(files, n, m)
    && (forall at | IsBinding(files, m, at) :: First(files, rank, m) == Some(at))
    && ((forall at :: !BoundTo(files, m, at)) ==> First(files, rank, m).None?)
  }

  // ---------------------------------------------------------------------------
  // Structures that are not orderly
  // ---------------------------------------------------------------------------

  /** Every name in reach is declared and exported where no named export passes it on. */
  function FullFiles(s: Structure, names: set<Name>): Files {
    map f | f in s :: SourceFile(FullTypes(s[f], names), FullTypes(s[f], names), s[f])
  }

  function FullTypes(exports: seq<Export>, names: set<Name>): set<Name> {
    set name | name in names && NamedTarget(exports, name).None?
  }

  /** The names that are asked for by named exports. */
  ghost predicate HasSources(s: Structure, names: set<Name>) {
    forall f, e, el | f in s && e in s[f] && e.NamedFrom? && el in e.elements :: el.source in names
  }

  lemma NamedSource(s: Structure, names: set<Name>, n: Node)
    requires HasSources(s, names) && n.file in s && NamedTarget(s[n.file], n.name).Some?
    ensures NamedTarget(s[n.file], n.name).value.name in names
  {
    IsNamedTarget(s[n.file], n.name);
  }

  lemma {:induction false} IsNamedTarget(exports: seq<Export>, name: Name)
    requires NamedTarget(exports, name).Some?
    ensures exists e :: e in exports && e.NamedFrom? && Target(e, name) == NamedTarget(exports, name)
  {
    if !(exports[0].NamedFrom? && Target(exports[0], name).Some?) { IsNamedTarget(exports[1..], name); }
  }

  lemma {:induction false} EndIsBinding(s: Structure, rank: Node -> nat, names: set<Name>, n: Node)
    requires Closed(s) && Ranked(s, rank) && HasSources(s, names)
    requires n.file in s && (n.name in names || NamedTarget(s[n.file], n.name).Some?)
    ensures IsBinding(FullFiles(s, names), n, End(s, rank, n))
    decreases rank(n)
  {
    var files := FullFiles(s, names);
    if NamedTarget(s[n.file], n.name).Some? {
      var m := NamedTarget(s[n.file], n.name).value;
      var e :| e in s[n.file] && Target(e, n.name) == Some(m);
      TargetIsAsked(s, n, e);
      NamedSource(s, names, n);
      EndIsBinding(s, rank, names, m);
      assert Leads(files, n, m);
    }
  }

  lemma FullFilesAreLinked(s: Structure, rank: Node -> nat, names: set<Name>)
    requires Closed(s) && Ranked(s, rank) && HasSources(s, names)
    ensures var files := FullFiles(s, names); StructureOf(files) == s && Linked(files) && AllExported(files)
  {
    var files := FullFiles(s, names);
    forall n: Node | n.file in files && NamedTarget(files[n.file].exports, n.name).Some?
      ensures !LocalExport(files, n) && exists at :: IsBinding(files, n, at)
    {
      EndIsBinding(s, rank, names, n);
    }
  }

  /** The least node, by rank, at which a structure is not orderly. */
  lemma {:induction false} LeastDisorder(s: Structure, rank: Node -> nat, n: Node) returns (least: Node)
    requires Ranked(s, rank) && n.file in s && n.name != DEFAULT && !OrderlyAt(s, rank, n)
    ensures least.file in s && least.name != DEFAULT && !OrderlyAt(s, rank, least) && OrderlyBelow(s, rank, rank(least))
    decreases rank(n)
  {
    if OrderlyBelow(s, rank, rank(n)) {
      least := n;
    } else {
      var m: Node :| m.file in s && m.name != DEFAULT && rank(m) < rank(n) && !OrderlyAt(s, rank, m);
      least := LeastDisorder(s, rank, m);
    }
  }

  /** There the search asks the wrong file first. */
  lemma DisorderIsWrong(s: Structure, rank: Node -> nat, names: set<Name>, n: Node)
    requires Closed(s) && Ranked(s, rank) && HasSources(s, names) && n.file in s && n.name in names
    requires n.name != DEFAULT && !OrderlyAt(s, rank, n) && OrderlyBelow(s, rank, rank(n))
    ensures !Right(FullFiles(s, names), n)
  {
    var files, exports := FullFiles(s, names), s[n.file];
    var first := FirstTarget(exports, n.name).value;
    FullFilesAreLinked(s, rank, names);
    var e :| e in exports && Target(e, n.name) == Some(first);
    TargetIsAsked(s, n, e);
    assert first.name in names by { FirstIsStarOrNamed(exports, n.name); NamedSource(s, names, n); }
    EndIsBinding(s, rank, names, n);
    EndIsBinding(s, rank, names, first);
    FirstIsBinding(files, rank, first);
    assert First(files, rank, first) == Some(End(s, rank, first));
    FirstOfIsFirstTarget(files, rank, n, exports);
    SearchForIsFirst(files, rank, n);
    assert SearchFor(files, n) == Hit(End(s, rank, first));
  }

  lemma {:induction false} FirstIsStarOrNamed(exports: seq<Export>, name: Name)
    requires NamedTarget(exports, name).Some?
    ensures FirstTarget(exports, name) == NamedTarget(exports, name) || FirstTarget(exports, name).value.name == name
  {
    if Target(exports[0], name).None? { FirstIsStarOrNamed(exports[1..], name); }
  }

  /** Without circles the search finds every binding, in all linked programs with these re-exports,
      exactly when in each file what is asked first for a name that it re-exports by name ends where
      that named export ends: at the same declaration, through named exports only. */
  lemma StructureRightExactly(s: Structure, rank: Node -> nat)
    requires Closed(s) && Ranked(s, rank)
    ensures Orderly(s, rank) <==>
      forall files, start: Node |
        StructureOf(files) == s && Linked(files) && AllExported(files) && start.file in s && start.name != DEFAULT ::
        Right(files, start)
  {
    if Orderly(s, rank) {
      forall files, start: Node |
        StructureOf(files) == s && Linked(files) && AllExported(files) && start.file in s && start.name != DEFAULT
        ensures Right(files, start)
      {
        assert start.file in StructureOf(files);
        FirstIsBinding(files, rank, start);
        SearchForIsFirst(files, rank, start);
      }
    } else {
      var n: Node :| n.file in s && n.name != DEFAULT && !OrderlyAt(s, rank, n);
      n := LeastDisorder(s, rank, n);
      var names := NamesFor(FullFiles(s, {}), n.name);
      AllSources(s, n.name);
      FullFilesAreLinked(s, rank, names);
      DisorderIsWrong(s, rank, names, n);
    }
  }

  lemma AllSources(s: Structure, root: Name)
    ensures HasSources(s, NamesFor(FullFiles(s, {}), root))
  {
    var files := FullFiles(s, {});
    forall f, e, el | f in s && e in s[f] && e.NamedFrom? && el in e.elements
      ensures el.source in NamesFor(files, root)
    {
      var i :| 0 <= i < |s[f]| && s[f][i] == e;
      var k :| 0 <= k < |e.elements| && e.elements[k] == el;
      assert files[f].exports[i].elements[k].source in NamesFor(files, root);
    }
  }

  // ---------------------------------------------------------------------------
  // Three programs that mislead the search
  // ---------------------------------------------------------------------------

  /** `export { x } from target`. */
  function ByName(target: FileId, x: Name): Export {
    NamedFrom(target, [Element(x, x)])
  }

  lemma ByNameAlone(target: FileId, x: Name, others: seq<Export>)
    ensures Target(ByName(target, x), x) == Some(Node(target, x))
    ensures NamedTarget([ByName(target, x)] + others, x) == Some(Node(target, x))
  {
    assert Find([Element(x, x)], (el: Element) => el.exported == x) == Some(Element(x, x));
  }

  /** A declaration of the file's own, exported or not, ends the search. */
  lemma DeclaredIsFound(files: Files, n: Node, seen: set<Node>, unseen: set<Node>)
    requires Declares(files, n) && n !in seen && n in unseen
    ensures Search(files, n, seen, unseen).0 == Hit(n)
  {
  }

  lemma SearchEnters(files: Files, n: Node, seen: set<Node>, unseen: set<Node>, now: set<Node>, left: set<Node>)
    requires n.file in files && !Declares(files, n) && n !in seen && n in unseen
    requires now == seen + {n} && left == unseen - {n}
    ensures Search(files, n, seen, unseen) == SearchExports(files, files[n.file].exports, n.name, now, left)
  {
  }

  lemma ExportedIsBound(files: Files, n: Node)
    requires LocalExport(files, n)
    ensures IsBinding(files, n, n)
  {
  }

  lemma NamedIsBinding(files: Files, n: Node, m: Node)
    requires n.file in files && !LocalExport(files, n) && NamedTarget(files[n.file].exports, n.name) == Some(m)
    requires LocalExport(files, m)
    ensures IsBinding(files, n, m)
  {
    ExportedIsBound(files, m);
    assert Leads(files, n, m);
  }

  /** `export * from a; export { x } from b`: the name is b's, and the search finds a's. */
  lemma StarFirstMisleads(f: FileId, a: FileId, b: FileId, x: Name)
    requires f != a && f != b && a != b
    ensures var files := map[f := SourceFile({}, {}, [StarFrom(a), ByName(b, x)]),
                             a := SourceFile({x}, {x}, []), b := SourceFile({x}, {x}, [])];
      IsBinding(files, Node(f, x), Node(b, x)) && SearchFor(files, Node(f, x)) == Hit(Node(a, x))
  {
    var files := map[f := SourceFile({}, {}, [StarFrom(a), ByName(b, x)]),
                     a := SourceFile({x}, {x}, []), b := SourceFile({x}, {x}, [])];
    var exports, n := files[f].exports, Node(f, x);
    assert exports[1..] == [ByName(b, x)] + [];
    ByNameAlone(b, x, []);
    NamedIsBinding(files, n, Node(b, x));
    var graph := ReexportGraph(files, x);
    assert x in NamesFor(files, x) && n in graph && Node(a, x) in graph;
    DeclaredIsFound(files, Node(a, x), {n}, graph.Keys - {n});
    assert SearchExports(files, exports, x, {n}, graph.Keys - {n}).0 == Hit(Node(a, x));
    SearchEnters(files, n, {}, graph.Keys, {n}, graph.Keys - {n});
  }

  /** `interface x {}` without `export`, and `export { x } from b`: the search finds the file's own. */
  lemma UnexportedMisleads(f: FileId, b: FileId, x: Name)
    requires f != b
    ensures var files := map[f := SourceFile({x}, {}, [ByName(b, x)]), b := SourceFile({x}, {x}, [])];
      IsBinding(files, Node(f, x), Node(b, x)) && SearchFor(files, Node(f, x)) == Hit(Node(f, x))
  {
    var files := map[f := SourceFile({x}, {}, [ByName(b, x)]), b := SourceFile({x}, {x}, [])];
    assert [ByName(b, x)] == [ByName(b, x)] + [];
    ByNameAlone(b, x, []);
    NamedIsBinding(files, Node(f, x), Node(b, x));
    assert x in NamesFor(files, x) && Node(f, x) in ReexportGraph(files, x);
    DeclaredIsFound(files, Node(f, x), {}, ReexportGraph(files, x).Keys);
  }

  predicate Different(f: FileId, k: FileId, m: FileId, a: FileId, c: FileId) {
    f != k && f != m && f != a && f != c && k != m && k != a && k != c && m != a && m != c && a != c
  }

  /** f: `export * from k; export * from a`. k: `export { x } from m; export * from c`. m: `export * from f`. */
  function Circle(f: FileId, k: FileId, m: FileId, a: FileId, c: FileId, x: Name): Files {
    map[f := SourceFile({}, {}, [StarFrom(k), StarFrom(a)]),
        k := SourceFile({}, {}, [ByName(m, x), StarFrom(c)]),
        m := SourceFile({}, {}, [StarFrom(f)]),
        a := SourceFile({x}, {x}, []), c := SourceFile({x}, {x}, [])]
  }

  least lemma CircleIsBoundOnce(f: FileId, k: FileId, m: FileId, a: FileId, c: FileId, x: Name, n: Node, at: Node)
    requires Different(f, k, m, a, c) && x != DEFAULT
    requires BoundTo(Circle(f, k, m, a, c, x), n, at) && n in {Node(f, x), Node(k, x), Node(m, x), Node(a, x)}
    ensures at == Node(a, x)
  {
  }

  lemma CircleIsBound(f: FileId, k: FileId, m: FileId, a: FileId, c: FileId, x: Name)
    requires Different(f, k, m, a, c) && x != DEFAULT
    ensures var files := Circle(f, k, m, a, c, x);
      BoundTo(files, Node(f, x), Node(a, x)) && BoundTo(files, Node(k, x), Node(a, x))
  {
    var files := Circle(f, k, m, a, c, x);
    ByNameAlone(m, x, [StarFrom(c)]);
    assert files[k].exports == [ByName(m, x)] + [StarFrom(c)];
    StarLeads(files, f, 1, x);
    StarLeads(files, m, 0, x);
    assert BoundTo(files, Node(a, x), Node(a, x));
    assert BoundTo(files, Node(f, x), Node(a, x));
    assert BoundTo(files, Node(m, x), Node(a, x));
    assert Leads(files, Node(k, x), Node(m, x));
  }

  lemma StarLeads(files: Files, f: FileId, i: nat, x: Name)
    requires f in files && x != DEFAULT && NamedTarget(files[f].exports, x).None?
    requires i < |files[f].exports| && files[f].exports[i].StarFrom?
    ensures Leads(files, Node(f, x), Node(files[f].exports[i].target, x))
  {
    assert files[f].exports[i] in files[f].exports;
  }

  lemma CircleBinding(f: FileId, k: FileId, m: FileId, a: FileId, c: FileId, x: Name, n: Node)
    requires Different(f, k, m, a, c) && x != DEFAULT && n in {Node(f, x), Node(k, x)}
    ensures IsBinding(Circle(f, k, m, a, c, x), n, Node(a, x))
  {
    CircleIsBound(f, k, m, a, c, x);
    forall at | BoundTo(Circle(f, k, m, a, c, x), n, at) ensures at == Node(a, x) {
      CircleIsBoundOnce(f, k, m, a, c, x, n, at);
    }
  }

  lemma CircleNames(f: FileId, k: FileId, m: FileId, a: FileId, c: FileId, x: Name, n: Node)
    requires Different(f, k, m, a, c) && n.file in Circle(f, k, m, a, c, x)
    requires NamedTarget(Circle(f, k, m, a, c, x)[n.file].exports, n.name).Some?
    ensures n == Node(k, x) && !LocalExport(Circle(f, k, m, a, c, x), n)
  {
    IsNamedTarget(Circle(f, k, m, a, c, x)[n.file].exports, n.name);
  }

  lemma CircleIsLinked(f: FileId, k: FileId, m: FileId, a: FileId, c: FileId, x: Name)
    requires Different(f, k, m, a, c) && x != DEFAULT
    ensures Linked(Circle(f, k, m, a, c, x)) && AllExported(Circle(f, k, m, a, c, x))
    ensures IsBinding(Circle(f, k, m, a, c, x), Node(f, x), Node(a, x))
  {
    var files := Circle(f, k, m, a, c, x);
    forall n: Node | n.file in files && NamedTarget(files[n.file].exports, n.name).Some?
      ensures !LocalExport(files, n) && IsBinding(files, n, Node(a, x))
    {
      CircleNames(f, k, m, a, c, x, n);
      CircleBinding(f, k, m, a, c, x, n);
    }
    CircleBinding(f, k, m, a, c, x, Node(f, x));
  }

  lemma CircleFromM(f: FileId, k: FileId, m: FileId, a: FileId, c: FileId, x: Name, seen: set<Node>, left: set<Node>)
    requires Different(f, k, m, a, c)
    requires Node(f, x) in seen && Node(m, x) !in seen && Node(m, x) in left
    ensures Search(Circle(f, k, m, a, c, x), Node(m, x), seen, left) == (NoHit, seen + {Node(m, x)})
  {
    var files, atM := Circle(f, k, m, a, c, x), Node(m, x);
    assert files[m].exports[1..] == [];
    SearchEnters(files, atM, seen, left, seen + {atM}, left - {atM});
  }

  lemma CircleFromK(f: FileId, k: FileId, m: FileId, a: FileId, c: FileId, x: Name, seen: set<Node>, left: set<Node>)
    requires Different(f, k, m, a, c) && Node(f, x) in seen
    requires forall n | n in {Node(k, x), Node(m, x), Node(c, x)} :: n !in seen && n in left
    ensures Search(Circle(f, k, m, a, c, x), Node(k, x), seen, left).0 == Hit(Node(c, x))
  {
    var files, atK := Circle(f, k, m, a, c, x), Node(k, x);
    var now, later := seen + {atK}, left - {atK};
    ByNameAlone(m, x, [StarFrom(c)]);
    SearchEnters(files, atK, seen, left, now, later);
    CircleFromM(f, k, m, a, c, x, now, later);
    DeclaredIsFound(files, Node(c, x), now + {Node(m, x)}, later);
    StarOnly(files, c, x, now + {Node(m, x)}, later);
    SearchNext(files, files[k].exports, 0, x, now, later);
    assert files[k].exports[0..] == files[k].exports && files[k].exports[1..] == [StarFrom(c)];
  }

  lemma StarOnly(files: Files, target: FileId, x: Name, seen: set<Node>, left: set<Node>)
    requires target in files && Search(files, Node(target, x), seen, left).0.Hit?
    ensures SearchExports(files, [StarFrom(target)], x, seen, left).0 == Search(files, Node(target, x), seen, left).0
  {
  }

  lemma CircleInside(f: FileId, k: FileId, m: FileId, a: FileId, c: FileId, x: Name, n: Node)
    requires n.file in {f, k, m, a, c} && n.name == x
    ensures n in ReexportGraph(Circle(f, k, m, a, c, x), x)
  {
    assert x in NamesFor(Circle(f, k, m, a, c, x), x);
  }

  lemma CircleFromF(f: FileId, k: FileId, m: FileId, a: FileId, c: FileId, x: Name, all: set<Node>)
    requires Different(f, k, m, a, c)
    requires forall n | n in {Node(f, x), Node(k, x), Node(m, x), Node(c, x)} :: n in all
    ensures Search(Circle(f, k, m, a, c, x), Node(f, x), {}, all).0 == Hit(Node(c, x))
  {
    var files, atF := Circle(f, k, m, a, c, x), Node(f, x);
    SearchEnters(files, atF, {}, all, {atF}, all - {atF});
    CircleFromK(f, k, m, a, c, x, {atF}, all - {atF});
    SearchNext(files, files[f].exports, 0, x, {atF}, all - {atF});
    assert files[f].exports[0..] == files[f].exports;
  }

  /** In circles the shared set can lead the search astray although every named export comes first: the
      name is bound to a's declaration, and the search for it finds c's. */
  lemma CircleMisleads(f: FileId, k: FileId, m: FileId, a: FileId, c: FileId, x: Name)
    requires Different(f, k, m, a, c) && x != DEFAULT
    ensures var files := Circle(f, k, m, a, c, x);
      && Linked(files) && AllExported(files)
      && IsBinding(files, Node(f, x), Node(a, x)) && SearchFor(files, Node(f, x)) == Hit(Node(c, x))
  {
    CircleIsLinked(f, k, m, a, c, x);
    forall n | n in {Node(f, x), Node(k, x), Node(m, x), Node(c, x)}
      ensures n in ReexportGraph(Circle(f, k, m, a, c, x), x)
    {
      CircleInside(f, k, m, a, c, x, n);
    }
    CircleFromF(f, k, m, a, c, x, ReexportGraph(Circle(f, k, m, a, c, x), x).Keys);
  }
}
