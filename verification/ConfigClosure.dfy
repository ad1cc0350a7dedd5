/**
 * The config-type closure of `collectConfigCatalog` (scripts/gen-config-catalog.ts):
 * a queue of type names is resolved file by file, local declarations are pasted and
 * their mentions queued, imports become references, and every ambiguity of the one
 * flat namespace is a violation.
 */
module ConfigClosure {
  import opened Basics
  import opened Graphs
  import opened Sources

  /** A local declaration, its source line, and the type names it mentions. */
  datatype Decl = Decl(file: FileId, name: Name, line: nat, mentions: seq<Name>)

  datatype TypeRef = TypeRef(imported: Name, specifier: string)

  /** What `resolveTypeName` answers. */
  datatype Resolution = Unresolved | Local(decl: Decl) | Imported(ref: TypeRef)

  /** A queued question: what does this name mean in this file? */
  datatype Item = Item(name: Name, from: FileId)

  /** Resolution answers, built-in global types, and each file's declarations by name. */
  datatype Program = Program(resolve: map<Item, Resolution>, globals: set<Name>, declared: map<Item, Decl>)

  /** A declaration's source pointer, the identity under which pastes are compared. */
  datatype Pointer = Pointer(file: FileId, line: nat)

  function PointerOf(d: Decl): Pointer {
    Pointer(d.file, d.line)
  }

  function Mentioned(p: Program, d: Decl): seq<Item> {
    Asked(Filter(d.mentions, (n: Name) => n !in p.globals), d.file)
  }

  function Asked(names: seq<Name>, file: FileId): seq<Item> {
    seq(|names|, i requires 0 <= i < |names| => Item(names[i], file))
  }

  /** A declaration asks, in its own file and in order, for the mentioned names that are not global. */
  lemma MentionsAreAsked(p: Program, d: Decl) returns (places: seq<nat>)
    ensures Selects(d.mentions, (n: Name) => n !in p.globals, Filter(d.mentions, (n: Name) => n !in p.globals), places)
    ensures |Mentioned(p, d)| == |places|
    ensures forall k | 0 <= k < |places| ::
      places[k] < |d.mentions| && Mentioned(p, d)[k] == Item(d.mentions[places[k]], d.file)
  {
    places := FilterSelects(d.mentions, (n: Name) => n !in p.globals);
  }

  /** From an item that resolves to a declaration to everything the declaration mentions. */
  function MentionGraph(p: Program): Graph<Item> {
    map x | x in p.resolve :: if p.resolve[x].Local? then Mentioned(p, p.resolve[x].decl) else []
  }

  /** Resolution is total on a finite universe, answers with declarations of the asked
      name, and a file has one declaration per name. */
  ghost predicate Closed(p: Program) {
    && (forall x, y | Edge(MentionGraph(p), x, y) :: y in p.resolve)
    && (forall x | x in p.resolve && p.resolve[x].Local? :: IsDeclared(p, x.name, p.resolve[x].decl))
  }

  ghost predicate IsDeclared(p: Program, n: Name, d: Decl) {
    d.name == n && Item(n, d.file) in p.declared && p.declared[Item(n, d.file)] == d
  }

  ghost predicate Needed(p: Program, root: Item, x: Item) {
    Reaches(MentionGraph(p), root, x)
  }

  /** The names needed from the root can share one flat namespace. */
  ghost predicate Coherent(p: Program, root: Item) {
    && (forall x | x in p.resolve && Needed(p, root, x) :: !p.resolve[x].Unresolved?)
    && (forall x | x in p.resolve && Needed(p, root, x) && x.name == root.name :: p.resolve[x].Local?)
    && (forall x, y {:trigger Needed(p, root, x), Needed(p, root, y)} |
          x in p.resolve && y in p.resolve && Needed(p, root, x) && Needed(p, root, y)
          && x.name == y.name :: p.resolve[x] == p.resolve[y])
  }

  datatype Violation =
    | Unknown(item: Item)
    | ConfigTypeImported(item: Item)
    | ImportAfterPaste(item: Item)
    | TwoImports(item: Item)
    | TwoDeclarations(item: Item)
    | PasteAfterImport(item: Item)

  /** The catalog entry under construction. */
  datatype Entry = Entry(pasted: map<Name, Pointer>, pastes: seq<Decl>, refs: map<Name, TypeRef>)

  ghost predicate NeededLocal(p: Program, root: Item, x: Item, d: Decl) {
    x in p.resolve && Needed(p, root, x) && p.resolve[x] == Local(d)
  }

  ghost predicate NeededImport(p: Program, root: Item, x: Item, ref: TypeRef) {
    x in p.resolve && Needed(p, root, x) && p.resolve[x] == Imported(ref)
  }

  ghost predicate OwedPaste(p: Program, root: Item, d: Decl) {
    exists x: Item :: NeededLocal(p, root, x, d)
  }

  ghost predicate OwedRef(p: Program, root: Item, n: Name, ref: TypeRef) {
    exists x: Item :: x.name == n && NeededImport(p, root, x, ref)
  }

  /** Every paste is owed to a needed item, and the name table mirrors the pastes. */
  ghost predicate GroundedPastes(p: Program, root: Item, e: Entry) {
    && (forall d | d in e.pastes :: OwedPaste(p, root, d) && d.name in e.pasted && e.pasted[d.name] == PointerOf(d))
    && (forall n | n in e.pasted :: exists d :: d in e.pastes && d.name == n)
    && (forall i, j | 0 <= i < j < |e.pastes| :: e.pastes[i].name != e.pastes[j].name)
  }

  ghost predicate GroundedRefs(p: Program, root: Item, e: Entry) {
    forall n | n in e.refs :: OwedRef(p, root, n, e.refs[n]) && n !in e.pasted
  }

  ghost predicate Grounded(p: Program, root: Item, e: Entry) {
    GroundedPastes(p, root, e) && GroundedRefs(p, root, e)
  }

  /** The entry says what `x` means. */
  ghost predicate Recorded(p: Program, e: Entry, x: Item) {
    && x in p.resolve
    && match p.resolve[x]
       case Unresolved => false
       case Local(d) => d in e.pastes
       case Imported(ref) => x.name in e.refs && e.refs[x.name] == ref
  }

  /** What the closure delivers when nothing is violated. */
  ghost predicate Complete(p: Program, root: Item, e: Entry) {
    // Needed declarations, no others, are pasted, each name once.
    && (forall d :: d in e.pastes <==> exists x :: x in p.resolve && Needed(p, root, x) && p.resolve[x] == Local(d))
    && (forall i, j | 0 <= i < j < |e.pastes| :: e.pastes[i].name != e.pastes[j].name)
    && (forall d | d in e.pastes :: d.name in e.pasted && e.pasted[d.name] == Pointer(d.file, d.line))
    && (forall n | n in e.pasted :: exists d :: d in e.pastes && d.name == n)
    // Every reference is the import of a needed name.
    && (forall n | n in e.refs :: OwedRef(p, root, n, e.refs[n]))
    // Each needed name means one declaration or one import, never both.
    && (forall x | Needed(p, root, x) :: Recorded(p, e, x))
    && (forall n | n in e.pasted :: n !in e.refs)
    // Whatever a paste mentions is global, pasted or referenced.
    && (forall d, n | d in e.pastes && n in d.mentions :: n in p.globals || n in e.pasted || n in e.refs)
  }

  /** All names ever asked for. */
  function Universe(p: Program): set<Name> {
    set x | x in p.resolve :: x.name
  }

  /** Settled items are recorded, and whatever a paste mentions is settled or queued. */
  ghost predicate Covered(p: Program, e: Entry, queue: seq<Item>, done: set<Item>) {
    && (forall x | x in done :: Recorded(p, e, x))
    && (forall d, y | d in e.pastes && y in Mentioned(p, d) :: y in done || y in queue)
  }

  lemma AddRef(p: Program, root: Item, e: Entry, item: Item, ref: TypeRef)
    requires Grounded(p, root, e) && NeededImport(p, root, item, ref) && item.name !in e.pasted
    ensures Grounded(p, root, e.(refs := e.refs[item.name := ref]))
  {
    assert OwedRef(p, root, item.name, ref);
  }

  lemma AddPaste(p: Program, root: Item, e: Entry, item: Item, d: Decl)
    requires Grounded(p, root, e) && NeededLocal(p, root, item, d) && d.name == item.name
    requires item.name !in e.pasted && item.name !in e.refs
    ensures Grounded(p, root, Entry(e.pasted[item.name := PointerOf(d)], e.pastes + [d], e.refs))
  {
    var e' := Entry(e.pasted[item.name := PointerOf(d)], e.pastes + [d], e.refs);
    assert OwedPaste(p, root, d);
    forall n | n in e'.pasted ensures exists d' :: d' in e'.pastes && d'.name == n {
      if n == item.name {
        assert d in e'.pastes;
      } else {
        var d' :| d' in e.pastes && d'.name == n;
        assert d' in e'.pastes;
      }
    }
  }

  lemma CoveredMoves(p: Program, e: Entry, item: Item, queue: seq<Item>, done: set<Item>)
    requires Covered(p, e, [item] + queue, done) && Recorded(p, e, item)
    ensures Covered(p, e, queue, done + {item})
  {
  }

  lemma CoveredRef(p: Program, e: Entry, item: Item, queue: seq<Item>, done: set<Item>, ref: TypeRef)
    requires Covered(p, e, [item] + queue, done)
    requires item in p.resolve && p.resolve[item] == Imported(ref) && (item.name in e.refs ==> e.refs[item.name] == ref)
    ensures Covered(p, e.(refs := e.refs[item.name := ref]), queue, done + {item})
  {
  }

  lemma CoveredPaste(p: Program, e: Entry, item: Item, queue: seq<Item>, done: set<Item>, d: Decl)
    requires Covered(p, e, [item] + queue, done) && item in p.resolve && p.resolve[item] == Local(d)
    ensures Covered(p, Entry(e.pasted[item.name := PointerOf(d)], e.pastes + [d], e.refs), queue + Mentioned(p, d),
                    done + {item})
  {
  }

  /** A pasted name with the declaration's own pointer is that very declaration. */
  lemma SamePaste(p: Program, root: Item, e: Entry, item: Item, d: Decl)
    requires Closed(p) && Grounded(p, root, e) && NeededLocal(p, root, item, d)
    requires item.name in e.pasted && e.pasted[item.name] == PointerOf(d)
    ensures d in e.pastes
  {
    var d' :| d' in e.pastes && d'.name == item.name;
    var x: Item :| NeededLocal(p, root, x, d');
  }

  lemma MentionsNeeded(p: Program, root: Item, item: Item, d: Decl)
    requires Closed(p) && NeededLocal(p, root, item, d)
    ensures forall y | y in Mentioned(p, d) :: y in p.resolve && Needed(p, root, y)
  {
    forall y | y in Mentioned(p, d) ensures y in p.resolve && Needed(p, root, y) {
      assert Edge(MentionGraph(p), item, y);
      ReachesExtend(MentionGraph(p), root, item, y);
    }
  }

  /** With the queue drained every needed item is recorded. */
  lemma Drained(p: Program, root: Item, e: Entry, done: set<Item>, x: Item)
    requires Covered(p, e, [], done) && root in done && Needed(p, root, x)
    ensures x in done && Recorded(p, e, x)
  {
    forall a, b | a in done && Edge(MentionGraph(p), a, b) ensures b in done {
      DrainedMention(p, e, done, a, b);
    }
    ReachesStaysInside(MentionGraph(p), done, root, x);
  }

  lemma DrainedMention(p: Program, e: Entry, done: set<Item>, a: Item, b: Item)
    requires Covered(p, e, [], done) && a in done && a in MentionGraph(p) && b in MentionGraph(p)[a]
    ensures b in done
  {
    assert Recorded(p, e, a);
    assert p.resolve[a].decl in e.pastes && b in Mentioned(p, p.resolve[a].decl);
  }

  lemma DrainedIsCoherent(p: Program, root: Item, e: Entry, done: set<Item>)
    requires Closed(p) && root in p.resolve && Grounded(p, root, e)
    requires Covered(p, e, [], done) && root in done && root.name !in e.refs
    ensures Coherent(p, root)
  {
    forall x | x in p.resolve && Needed(p, root, x) ensures Recorded(p, e, x) {
      Drained(p, root, e, done, x);
    }
    forall x, y | x in p.resolve && y in p.resolve && Needed(p, root, x) && Needed(p, root, y) && x.name == y.name
      ensures p.resolve[x] == p.resolve[y]
    {
      if p.resolve[x].Local? && p.resolve[y].Local? {
        var i :| 0 <= i < |e.pastes| && e.pastes[i] == p.resolve[x].decl;
        var j :| 0 <= j < |e.pastes| && e.pastes[j] == p.resolve[y].decl;
      }
    }
  }

  lemma DrainedIsComplete(p: Program, root: Item, e: Entry, done: set<Item>)
    requires Closed(p) && root in p.resolve && Grounded(p, root, e)
    requires Covered(p, e, [], done) && root in done
    ensures Complete(p, root, e)
  {
    forall x | Needed(p, root, x) ensures Recorded(p, e, x) {
      Drained(p, root, e, done, x);
    }
    forall d, n | d in e.pastes && n in d.mentions && n !in p.globals ensures n in e.pasted || n in e.refs {
      var names := Filter(d.mentions, (n: Name) => n !in p.globals);
      var k :| 0 <= k < |names| && names[k] == n;
      assert Mentioned(p, d)[k] == Item(n, d.file);
      assert Recorded(p, e, Item(n, d.file));
    }
  }

  /** The loop's state: what is recorded is grounded; without violations, all is covered. */
  ghost predicate Working(p: Program, root: Item, e: Entry, violations: seq<Violation>, queue: seq<Item>,
                          done: set<Item>) {
    && (forall x | x in queue :: x in p.resolve && Needed(p, root, x))
    && Grounded(p, root, e)
    && root.name !in e.refs
    && (violations != [] ==> !Coherent(p, root))
    && (forall v | v in violations :: IsTrue(p, root, v))
    && (violations == [] ==> Covered(p, e, queue, done) && (root in done || root in queue))
  }

  lemma HeadTail<T>(s: seq<T>)
    requires s != []
    ensures s == [s[0]] + s[1..]
  {
  }

  /** Another needed item of the name means something of this kind. */
  ghost predicate OtherMeaning(p: Program, root: Item, item: Item, r: Resolution) {
    exists y: Item :: y.name == item.name && y in p.resolve && Needed(p, root, y) && p.resolve[y] == r
  }

  /** What a violation says is so. */
  ghost predicate IsTrue(p: Program, root: Item, v: Violation) {
    && v.item in p.resolve && Needed(p, root, v.item)
    && var r := p.resolve[v.item];
       match v
       case Unknown(_) => r.Unresolved?
       case ConfigTypeImported(item) => r.Imported? && item.name == root.name
       case ImportAfterPaste(item) =>
         r.Imported? && item.name != root.name && exists d :: OtherMeaning(p, root, item, Local(d))
       case TwoImports(item) =>
         && r.Imported? && item.name != root.name
         && exists ref :: ref != r.ref && OtherMeaning(p, root, item, Imported(ref))
       case TwoDeclarations(item) => r.Local? && exists d :: d != r.decl && OtherMeaning(p, root, item, Local(d))
       case PasteAfterImport(item) => r.Local? && exists ref :: OtherMeaning(p, root, item, Imported(ref))
  }

  lemma PastedMeaning(p: Program, root: Item, e: Entry, item: Item) returns (d: Decl)
    requires Closed(p) && Grounded(p, root, e) && item.name in e.pasted
    ensures OtherMeaning(p, root, item, Local(d)) && e.pasted[item.name] == PointerOf(d)
  {
    d :| d in e.pastes && d.name == item.name;
    var x: Item :| NeededLocal(p, root, x, d);
  }

  lemma ReferredMeaning(p: Program, root: Item, e: Entry, item: Item)
    requires Grounded(p, root, e) && item.name in e.refs
    ensures OtherMeaning(p, root, item, Imported(e.refs[item.name]))
  {
    assert OwedRef(p, root, item.name, e.refs[item.name]);
  }

  /** The guards of the loop's violation branches, and what each of them says. */
  ghost predicate Says(p: Program, root: Item, e: Entry, v: Violation)
    requires v.item in p.resolve
  {
    var r, n := p.resolve[v.item], v.item.name;
    match v
    case Unknown(_) => r.Unresolved?
    case ConfigTypeImported(_) => r.Imported? && n == root.name
    case ImportAfterPaste(_) => r.Imported? && n != root.name && n in e.pasted
    case TwoImports(_) => r.Imported? && n != root.name && n in e.refs && e.refs[n] != r.ref
    case TwoDeclarations(_) => r.Local? && n in e.pasted && e.pasted[n] != PointerOf(r.decl)
    case PasteAfterImport(_) => r.Local? && n in e.refs
  }

  lemma ViolationIsTrue(p: Program, root: Item, e: Entry, v: Violation)
    requires Closed(p) && Grounded(p, root, e) && v.item in p.resolve && Needed(p, root, v.item) && Says(p, root, e, v)
    ensures IsTrue(p, root, v)
  {
    if v.ImportAfterPaste? || v.TwoDeclarations? {
      var d := PastedMeaning(p, root, e, v.item);
    } else if v.TwoImports? || v.PasteAfterImport? {
      ReferredMeaning(p, root, e, v.item);
    }
  }

  lemma TrueIsIncoherent(p: Program, root: Item, v: Violation)
    requires IsTrue(p, root, v)
    ensures !Coherent(p, root)
  {
  }

  lemma Violated(p: Program, root: Item, e: Entry, vs: seq<Violation>, item: Item, queue: seq<Item>, done: set<Item>,
                 v: Violation)
    requires Closed(p) && Working(p, root, e, vs, [item] + queue, done)
    requires item in p.resolve && v.item == item && Says(p, root, e, v)
    ensures Working(p, root, e, vs + [v], queue, done)
  {
    assert item in [item] + queue;
    ViolationIsTrue(p, root, e, v);
    TrueIsIncoherent(p, root, v);
  }

  lemma AfterRef(p: Program, root: Item, e: Entry, vs: seq<Violation>, item: Item, queue: seq<Item>, done: set<Item>,
                 ref: TypeRef)
    requires Working(p, root, e, vs, [item] + queue, done) && p.resolve[item] == Imported(ref)
    requires item.name !in e.pasted && item.name != root.name
    requires item.name in e.refs ==> e.refs[item.name] == ref
    ensures Working(p, root, e.(refs := e.refs[item.name := ref]), vs, queue, done + {item})
  {
    AddRef(p, root, e, item, ref);
    if vs == [] {
      CoveredRef(p, e, item, queue, done, ref);
    }
  }

  lemma AfterRepeat(p: Program, root: Item, e: Entry, vs: seq<Violation>, item: Item, queue: seq<Item>,
                    done: set<Item>, d: Decl)
    requires Closed(p) && Working(p, root, e, vs, [item] + queue, done) && p.resolve[item] == Local(d)
    requires item.name in e.pasted && e.pasted[item.name] == PointerOf(d)
    ensures Working(p, root, e, vs, queue, done + {item})
  {
    SamePaste(p, root, e, item, d);
    if vs == [] {
      CoveredMoves(p, e, item, queue, done);
    }
  }

  lemma AfterPaste(p: Program, root: Item, e: Entry, vs: seq<Violation>, item: Item, queue: seq<Item>,
                   done: set<Item>, d: Decl)
    requires Closed(p) && Working(p, root, e, vs, [item] + queue, done) && p.resolve[item] == Local(d)
    requires item.name !in e.pasted && item.name !in e.refs
    ensures Working(p, root, Entry(e.pasted[item.name := PointerOf(d)], e.pastes + [d], e.refs), vs,
                    queue + Mentioned(p, d), done + {item})
  {
    AddPaste(p, root, e, item, d);
    MentionsNeeded(p, root, item, d);
    if vs == [] {
      CoveredPaste(p, e, item, queue, done, d);
    }
  }

  lemma Finished(p: Program, root: Item, e: Entry, vs: seq<Violation>, done: set<Item>)
    requires Closed(p) && root in p.resolve && Working(p, root, e, vs, [], done)
    ensures vs == [] <==> Coherent(p, root)
    ensures vs == [] ==> Complete(p, root, e)
    ensures forall v | v in vs :: IsTrue(p, root, v)
  {
    if vs == [] {
      DrainedIsCoherent(p, root, e, done);
      DrainedIsComplete(p, root, e, done);
    }
  }

  // ---------------------------------------------------------------------------
  // The order of the pastes
  // ---------------------------------------------------------------------------

  /** The item is reached from the root over `n` mentions. */
  ghost predicate Walk(p: Program, root: Item, n: nat, x: Item)
    decreases n, 1
  {
    if n == 0 then x == root else WalkOver(p, root, n, x)
  }

  ghost predicate WalkOver(p: Program, root: Item, n: nat, x: Item)
    requires n > 0
    decreases n, 0
  {
    exists a :: Walk(p, root, n - 1, a) && Mentions(p, a, x)
  }

  ghost predicate Mentions(p: Program, a: Item, x: Item) {
    Edge(MentionGraph(p), a, x)
  }

  /** A settled item mentions this one. */
  ghost predicate LeadsOn(p: Program, done: set<Item>, a: Item, x: Item) {
    a in done && Mentions(p, a, x)
  }

  /** The declaration is needed over at most `n` mentions. */
  ghost predicate NeededIn(p: Program, root: Item, n: nat, d: Decl) {
    exists m: nat, x | m <= n :: Walk(p, root, m, x) && x in p.resolve && p.resolve[x] == Local(d)
  }

  /** The root's own declaration first, and none before one that is nearer to the root. */
  ghost predicate BreadthFirst(p: Program, root: Item, pastes: seq<Decl>) {
    && pastes != [] && root in p.resolve && p.resolve[root] == Local(pastes[0])
    && forall i, j, n: nat | 0 <= i < j < |pastes| && NeededIn(p, root, n, pastes[j]) :: NeededIn(p, root, n, pastes[i])
  }

  /** What the pasted declarations mention, in order. */
  function MentionedByAll(p: Program, pastes: seq<Decl>): seq<Item> {
    if pastes == [] then [] else MentionedByAll(p, pastes[..|pastes| - 1]) + Mentioned(p, pastes[|pastes| - 1])
  }

  /** The declarations the items mean, each where it comes first. */
  function FirstDecls(p: Program, asked: seq<Item>): seq<Decl>
    requires forall x | x in asked :: x in p.resolve
  {
    if asked == [] then []
    else
      var front, r := FirstDecls(p, asked[..|asked| - 1]), p.resolve[asked[|asked| - 1]];
      if r.Local? && r.decl !in front then front + [r.decl] else front
  }

  /** The pastes are the declarations of the root and of what the pastes mention, in the order in which
      they are asked for. */
  ghost predicate InAskedOrder(p: Program, root: Item, pastes: seq<Decl>) {
    var asked := [root] + MentionedByAll(p, pastes);
    (forall x | x in asked :: x in p.resolve) && pastes == FirstDecls(p, asked)
  }

  /** Asked and queued items make up the root and all mentions. */
  ghost predicate Asking(p: Program, root: Item, pastes: seq<Decl>, asked: seq<Item>, queue: seq<Item>) {
    && (forall x | x in asked + queue :: x in p.resolve)
    && asked + queue == [root] + MentionedByAll(p, pastes)
    && pastes == FirstDecls(p, asked)
  }

  lemma AskNext(p: Program, root: Item, pastes: seq<Decl>, asked: seq<Item>, item: Item, queue: seq<Item>)
    requires Asking(p, root, pastes, asked, [item] + queue)
    requires item in p.resolve && (p.resolve[item].Local? ==> p.resolve[item].decl in pastes)
    ensures Asking(p, root, pastes, asked + [item], queue)
  {
    assert asked + [item] + queue == asked + ([item] + queue);
    assert forall x | x in asked + ([item] + queue) :: x in p.resolve;
    assert (asked + [item])[..|asked|] == asked;
  }

  lemma AskPaste(p: Program, root: Item, pastes: seq<Decl>, asked: seq<Item>, item: Item, queue: seq<Item>, d: Decl)
    requires Asking(p, root, pastes, asked, [item] + queue)
    requires item in p.resolve && p.resolve[item] == Local(d) && d !in pastes
    requires forall y | y in Mentioned(p, d) :: y in p.resolve
    ensures Asking(p, root, pastes + [d], asked + [item], queue + Mentioned(p, d))
  {
    var more := Mentioned(p, d);
    AskedMore(asked, item, queue, more, root, MentionedByAll(p, pastes));
    assert (pastes + [d])[..|pastes|] == pastes;
    assert forall x | x in asked + ([item] + queue) :: x in p.resolve;
    assert (asked + [item])[..|asked|] == asked;
  }

  lemma AskedMore(asked: seq<Item>, item: Item, queue: seq<Item>, more: seq<Item>, root: Item, mentioned: seq<Item>)
    requires asked + ([item] + queue) == [root] + mentioned
    ensures asked + [item] + (queue + more) == [root] + (mentioned + more)
  {
    assert asked + [item] + (queue + more) == asked + ([item] + queue) + more;
    assert [root] + mentioned + more == [root] + (mentioned + more);
  }

  ghost predicate IsLeast(p: Program, root: Item, n: nat, d: Decl) {
    NeededIn(p, root, n, d) && forall m: nat | NeededIn(p, root, m, d) :: n <= m
  }

  /** Distances of the queued items: they never fall, and rise by one at most. */
  ghost predicate QueueLayers(p: Program, root: Item, queue: seq<Item>, levels: seq<nat>) {
    && |levels| == |queue|
    && (forall k | 0 <= k < |queue| :: Walk(p, root, levels[k], queue[k]))
    && (forall k | 0 <= k < |levels| :: levels[0] <= levels[k] <= levels[0] + 1)
    && (forall j, k | 0 <= j < k < |levels| :: levels[j] <= levels[k])
  }

  /** Distances of the pastes: the least ones, and they never fall. */
  ghost predicate PasteLayers(p: Program, root: Item, pastes: seq<Decl>, at: seq<nat>) {
    && |at| == |pastes|
    && (forall i | 0 <= i < |at| :: IsLeast(p, root, at[i], pastes[i]))
    && (forall i, j | 0 <= i < j < |at| :: at[i] <= at[j])
  }

  ghost predicate QueuedBy(queue: seq<Item>, levels: seq<nat>, n: nat, y: Item)
    requires |levels| == |queue|
  {
    exists k | 0 <= k < |queue| :: queue[k] == y && levels[k] <= n
  }

  /** The root and every mention is done or queued at its distance. */
  ghost predicate MentionsAsked(p: Program, root: Item, pastes: seq<Decl>, at: seq<nat>, queue: seq<Item>,
                                levels: seq<nat>, done: set<Item>)
    requires |at| == |pastes| && |levels| == |queue|
  {
    && (root in done || QueuedBy(queue, levels, 0, root))
    && forall i, y | 0 <= i < |at| && y in Mentioned(p, pastes[i]) :: y in done || QueuedBy(queue, levels, at[i] + 1, y)
  }

  /** The pastes so far are not behind the head of the queue. */
  ghost predicate InLayers(p: Program, root: Item, pastes: seq<Decl>, queue: seq<Item>, levels: seq<nat>, at: seq<nat>,
                           done: set<Item>)
  {
    && QueueLayers(p, root, queue, levels) && PasteLayers(p, root, pastes, at)
    && (queue != [] ==> forall i | 0 <= i < |at| :: at[i] <= levels[0])
    && MentionsAsked(p, root, pastes, at, queue, levels, done)
  }

  ghost predicate Tracked(p: Program, root: Item, e: Entry, queue: seq<Item>, levels: seq<nat>, at: seq<nat>,
                          done: set<Item>)
  {
    InLayers(p, root, e.pastes, queue, levels, at, done) && Covered(p, e, queue, done)
  }

  lemma NotQueuedBelow(p: Program, root: Item, queue: seq<Item>, levels: seq<nat>, n: nat, y: Item)
    requires QueueLayers(p, root, queue, levels) && (queue != [] ==> n < levels[0])
    ensures !QueuedBy(queue, levels, n, y)
  {
  }

  lemma QueuedLater(queue: seq<Item>, levels: seq<nat>, m: nat, n: nat, y: Item)
    requires |levels| == |queue| && m <= n && QueuedBy(queue, levels, m, y)
    ensures QueuedBy(queue, levels, n, y)
  {
  }

  lemma DoneIsPasted(p: Program, root: Item, e: Entry, queue: seq<Item>, levels: seq<nat>, at: seq<nat>,
                     done: set<Item>, a: Item, x: Item)
    returns (i: nat)
    requires Tracked(p, root, e, queue, levels, at, done) && LeadsOn(p, done, a, x)
    ensures i < |e.pastes| && p.resolve[a] == Local(e.pastes[i]) && x in Mentioned(p, e.pastes[i])
  {
    assert Recorded(p, e, a);
    i :| i < |e.pastes| && e.pastes[i] == p.resolve[a].decl;
  }

  lemma NeededAt(p: Program, root: Item, n: nat, x: Item, d: Decl)
    requires Walk(p, root, n, x) && x in p.resolve && p.resolve[x] == Local(d)
    ensures NeededIn(p, root, n, d)
  {
  }

  /** What a done item mentions is done, when it is nearer than the head of the queue. */
  lemma MentionIsDone(p: Program, root: Item, e: Entry, queue: seq<Item>, levels: seq<nat>, at: seq<nat>,
                      done: set<Item>, m: nat, a: Item, x: Item)
    requires Tracked(p, root, e, queue, levels, at, done) && (queue != [] ==> m + 1 < levels[0])
    requires Walk(p, root, m, a) && LeadsOn(p, done, a, x)
    ensures x in done
  {
    var i := DoneIsPasted(p, root, e, queue, levels, at, done, a, x);
    NeededAt(p, root, m, a, e.pastes[i]);
    assert IsLeast(p, root, at[i], e.pastes[i]);
    NotQueuedBelow(p, root, queue, levels, at[i] + 1, x);
  }

  lemma WalkBack(p: Program, root: Item, n: nat, x: Item) returns (a: Item)
    requires n > 0 && Walk(p, root, n, x)
    ensures Walk(p, root, n - 1, a) && Mentions(p, a, x)
  {
    a :| Walk(p, root, n - 1, a) && Mentions(p, a, x);
  }

  /** Whatever is that many mentions away is done. */
  ghost predicate IsDoneAt(p: Program, root: Item, done: set<Item>, n: nat) {
    forall x | Walk(p, root, n, x) :: x in done
  }

  /** What a done item less than `n` mentions away mentions is done. */
  ghost predicate NearIsClosed(p: Program, root: Item, done: set<Item>, n: nat) {
    forall m: nat, a, x | m < n && Walk(p, root, m, a) && LeadsOn(p, done, a, x) :: x in done
  }

  lemma ClosedIsDone(p: Program, root: Item, done: set<Item>, n: nat)
    requires root in done && NearIsClosed(p, root, done, n)
    ensures IsDoneAt(p, root, done, n)
  {
    for m := 0 to n
      invariant IsDoneAt(p, root, done, m)
    {
      forall x | Walk(p, root, m + 1, x) ensures x in done {
        var a := WalkBack(p, root, m + 1, x);
        assert LeadsOn(p, done, a, x);
      }
    }
  }

  /** Everything nearer than the head of the queue is done. */
  lemma NearerIsDone(p: Program, root: Item, e: Entry, queue: seq<Item>, levels: seq<nat>, at: seq<nat>,
                     done: set<Item>, n: nat, x: Item)
    requires Tracked(p, root, e, queue, levels, at, done)
    requires Walk(p, root, n, x) && (queue != [] ==> n < levels[0])
    ensures x in done
  {
    NotQueuedBelow(p, root, queue, levels, 0, root);
    forall m: nat, a, y | m < n && Walk(p, root, m, a) && LeadsOn(p, done, a, y) ensures y in done {
      MentionIsDone(p, root, e, queue, levels, at, done, m, a, y);
    }
    ClosedIsDone(p, root, done, n);
  }

  /** A declaration that is pasted now was not needed nearer to the root. */
  lemma PastedAtLeast(p: Program, root: Item, e: Entry, item: Item, queue: seq<Item>, levels: seq<nat>, at: seq<nat>,
                      done: set<Item>, d: Decl)
    requires Tracked(p, root, e, [item] + queue, levels, at, done)
    requires item in p.resolve && p.resolve[item] == Local(d) && d !in e.pastes
    ensures IsLeast(p, root, levels[0], d)
  {
    assert ([item] + queue)[0] == item;
    NeededAt(p, root, levels[0], item, d);
    forall m: nat | NeededIn(p, root, m, d) ensures levels[0] <= m {
      var n: nat, x :| n <= m && Walk(p, root, n, x) && x in p.resolve && p.resolve[x] == Local(d);
      if n < levels[0] { NewIsNotNearer(p, root, e, item, queue, levels, at, done, n, x, d); }
    }
  }

  lemma NewIsNotNearer(p: Program, root: Item, e: Entry, item: Item, queue: seq<Item>, levels: seq<nat>,
                       at: seq<nat>, done: set<Item>, n: nat, x: Item, d: Decl)
    requires Tracked(p, root, e, [item] + queue, levels, at, done)
    requires Walk(p, root, n, x) && n < levels[0] && x in p.resolve && p.resolve[x] == Local(d)
    ensures d in e.pastes
  {
    NearerIsDone(p, root, e, [item] + queue, levels, at, done, n, x);
    assert Recorded(p, e, x);
  }

  lemma QueueNext(p: Program, root: Item, item: Item, queue: seq<Item>, levels: seq<nat>)
    requires QueueLayers(p, root, [item] + queue, levels)
    ensures QueueLayers(p, root, queue, levels[1..])
    ensures forall k | 0 <= k < |levels[1..]| :: levels[0] <= levels[1..][k] <= levels[0] + 1
  {
    var whole, rest := [item] + queue, levels[1..];
    assert forall k | 0 <= k < |rest| :: rest[k] == levels[k + 1];
    forall k | 0 <= k < |queue| ensures Walk(p, root, rest[k], queue[k]) {
      assert Walk(p, root, levels[k + 1], whole[k + 1]);
    }
  }

  lemma StillQueued(item: Item, queue: seq<Item>, levels: seq<nat>, n: nat, y: Item)
    requires |levels| == |queue| + 1 && QueuedBy([item] + queue, levels, n, y) && y != item
    ensures QueuedBy(queue, levels[1..], n, y)
  {
    var k :| 0 <= k < |levels| && ([item] + queue)[k] == y && levels[k] <= n;
    assert queue[k - 1] == y && levels[1..][k - 1] <= n;
  }

  lemma MentionsNext(p: Program, root: Item, pastes: seq<Decl>, at: seq<nat>, item: Item, queue: seq<Item>,
                     levels: seq<nat>, done: set<Item>)
    requires |at| == |pastes| && |levels| == |queue| + 1
    requires MentionsAsked(p, root, pastes, at, [item] + queue, levels, done)
    ensures MentionsAsked(p, root, pastes, at, queue, levels[1..], done + {item})
  {
    if root !in done && root != item { StillQueued(item, queue, levels, 0, root); }
    forall i, y | 0 <= i < |at| && y in Mentioned(p, pastes[i])
      ensures y in done + {item} || QueuedBy(queue, levels[1..], at[i] + 1, y)
    {
      if y !in done && y != item { StillQueued(item, queue, levels, at[i] + 1, y); }
    }
  }

  lemma LayersNext(p: Program, root: Item, pastes: seq<Decl>, item: Item, queue: seq<Item>, levels: seq<nat>,
                   at: seq<nat>, done: set<Item>)
    requires InLayers(p, root, pastes, [item] + queue, levels, at, done)
    ensures InLayers(p, root, pastes, queue, levels[1..], at, done + {item})
  {
    QueueNext(p, root, item, queue, levels);
    MentionsNext(p, root, pastes, at, item, queue, levels, done);
  }

  lemma MentionsWalk(p: Program, root: Item, item: Item, d: Decl, n: nat)
    requires item in p.resolve && p.resolve[item] == Local(d) && Walk(p, root, n, item)
    ensures forall k | 0 <= k < |Mentioned(p, d)| :: Walk(p, root, n + 1, Mentioned(p, d)[k])
  {
    forall k | 0 <= k < |Mentioned(p, d)| ensures Walk(p, root, n + 1, Mentioned(p, d)[k]) {
      assert Mentions(p, item, Mentioned(p, d)[k]);
      assert WalkOver(p, root, n + 1, Mentioned(p, d)[k]);
    }
  }

  lemma QueueAppend(p: Program, root: Item, queue: seq<Item>, levels: seq<nat>, items: seq<Item>, more: seq<nat>,
                    level: nat)
    requires QueueLayers(p, root, queue, levels)
    requires forall k | 0 <= k < |levels| :: level <= levels[k] <= level + 1
    requires |more| == |items| && forall k | 0 <= k < |more| ::
      more[k] == level + 1 && Walk(p, root, level + 1, items[k])
    ensures QueueLayers(p, root, queue + items, levels + more)
    ensures forall y, n: nat | QueuedBy(queue, levels, n, y) :: QueuedBy(queue + items, levels + more, n, y)
    ensures forall y | y in items :: QueuedBy(queue + items, levels + more, level + 1, y)
  {
    var longer, steps := queue + items, levels + more;
    forall y, n: nat | QueuedBy(queue, levels, n, y) ensures QueuedBy(longer, steps, n, y) {
      var k :| 0 <= k < |queue| && queue[k] == y && levels[k] <= n;
      assert longer[k] == y && steps[k] <= n;
    }
    forall y | y in items ensures QueuedBy(longer, steps, level + 1, y) {
      var k :| 0 <= k < |items| && items[k] == y;
      assert longer[|queue| + k] == y && steps[|queue| + k] == more[k];
    }
  }

  lemma LayersPaste(p: Program, root: Item, e: Entry, item: Item, queue: seq<Item>, levels: seq<nat>, at: seq<nat>,
                    done: set<Item>, d: Decl, more: seq<nat>)
    requires Tracked(p, root, e, [item] + queue, levels, at, done)
    requires item in p.resolve && p.resolve[item] == Local(d) && d !in e.pastes
    requires |more| == |Mentioned(p, d)| && forall k | 0 <= k < |more| :: more[k] == levels[0] + 1
    ensures InLayers(p, root, e.pastes + [d], queue + Mentioned(p, d), levels[1..] + more, at + [levels[0]],
                     done + {item})
  {
    var level := levels[0];
    PastedAtLeast(p, root, e, item, queue, levels, at, done, d);
    QueueNext(p, root, item, queue, levels);
    LayersNext(p, root, e.pastes, item, queue, levels, at, done);
    assert ([item] + queue)[0] == item;
    MentionsWalk(p, root, item, d, level);
    QueueAppend(p, root, queue, levels[1..], Mentioned(p, d), more, level);
    MentionsAppend(p, root, e.pastes, at, queue, levels[1..], done + {item}, d, level, more);
  }

  lemma MentionsAppend(p: Program, root: Item, pastes: seq<Decl>, at: seq<nat>, queue: seq<Item>, levels: seq<nat>,
                       done: set<Item>, d: Decl, level: nat, more: seq<nat>)
    requires InLayers(p, root, pastes, queue, levels, at, done) && |more| == |Mentioned(p, d)|
    requires forall y, n: nat | QueuedBy(queue, levels, n, y) ::
      QueuedBy(queue + Mentioned(p, d), levels + more, n, y)
    requires forall y | y in Mentioned(p, d) :: QueuedBy(queue + Mentioned(p, d), levels + more, level + 1, y)
    ensures MentionsAsked(p, root, pastes + [d], at + [level], queue + Mentioned(p, d), levels + more, done)
  {
    var longer, ats := pastes + [d], at + [level];
    forall i, y | 0 <= i < |ats| && y in Mentioned(p, longer[i])
      ensures y in done || QueuedBy(queue + Mentioned(p, d), levels + more, ats[i] + 1, y)
    {
      if i < |at| { assert longer[i] == pastes[i] && ats[i] == at[i]; }
    }
  }

  lemma RootIsFirst(p: Program, root: Item, e: Entry, levels: seq<nat>, at: seq<nat>, done: set<Item>)
    requires Tracked(p, root, e, [], levels, at, done)
    requires root in p.resolve && p.resolve[root].Local?
    ensures e.pastes != [] && p.resolve[root] == Local(e.pastes[0])
  {
    assert Recorded(p, e, root);
    var d := p.resolve[root].decl;
    var r: nat :| r < |e.pastes| && e.pastes[r] == d;
    assert Walk(p, root, 0, root);
    NeededAt(p, root, 0, root, d);
    assert IsLeast(p, root, at[r], d) && IsLeast(p, root, at[0], e.pastes[0]) && at[0] <= at[r] <= 0;
    var m: nat, x :| m <= at[0] && Walk(p, root, m, x) && x in p.resolve && p.resolve[x] == Local(e.pastes[0]);
  }

  lemma LayersAreBreadthFirst(p: Program, root: Item, e: Entry, levels: seq<nat>, at: seq<nat>, done: set<Item>)
    requires Tracked(p, root, e, [], levels, at, done)
    requires root in p.resolve && p.resolve[root].Local?
    ensures BreadthFirst(p, root, e.pastes)
  {
    RootIsFirst(p, root, e, levels, at, done);
    forall i, j, n: nat | 0 <= i < j < |e.pastes| && NeededIn(p, root, n, e.pastes[j])
      ensures NeededIn(p, root, n, e.pastes[i])
    {
      assert IsLeast(p, root, at[j], e.pastes[j]) && IsLeast(p, root, at[i], e.pastes[i]);
      NeededLater(p, root, at[i], n, e.pastes[i]);
    }
  }

  lemma NeededLater(p: Program, root: Item, m: nat, n: nat, d: Decl)
    requires NeededIn(p, root, m, d) && m <= n
    ensures NeededIn(p, root, n, d)
  {
    var k: nat, x :| k <= m && Walk(p, root, k, x) && x in p.resolve && p.resolve[x] == Local(d);
    assert k <= n;
  }

  /** As long as nothing is violated, pastes are in the order asked for and in layers. */
  ghost predicate Ordering(p: Program, root: Item, e: Entry, violations: seq<Violation>, asked: seq<Item>,
                           queue: seq<Item>, levels: seq<nat>, at: seq<nat>, done: set<Item>)
  {
    violations == [] ==> Asking(p, root, e.pastes, asked, queue) && InLayers(p, root, e.pastes, queue, levels, at, done)
  }

  function Rest<T>(s: seq<T>): seq<T> {
    if s == [] then [] else s[1..]
  }

  lemma OrderingStarts(p: Program, root: Item)
    requires root in p.resolve
    ensures Ordering(p, root, Entry(map[], [], map[]), [], [], [root], [0], [], {})
  {
    assert [] + [root] == [root] + [];
    assert [root][0] == root && [0][0] == 0;
  }

  /** An item that leads to no new paste. */
  lemma OrderingNext(p: Program, root: Item, e: Entry, violations: seq<Violation>, asked: seq<Item>, item: Item,
                     queue: seq<Item>, levels: seq<nat>, at: seq<nat>, done: set<Item>)
    requires Ordering(p, root, e, violations, asked, [item] + queue, levels, at, done)
    requires item in p.resolve && (p.resolve[item].Local? ==> p.resolve[item].decl in e.pastes)
    ensures forall refs ::
      Ordering(p, root, e.(refs := refs), violations, asked + [item], queue, Rest(levels), at, done + {item})
  {
    if violations == [] {
      AskNext(p, root, e.pastes, asked, item, queue);
      LayersNext(p, root, e.pastes, item, queue, levels, at, done);
    }
  }

  function OneBelow(levels: seq<nat>, count: nat): seq<nat> {
    if levels == [] then [] else seq(count, k => levels[0] + 1)
  }

  /** An item whose declaration is pasted. */
  lemma OrderingPaste(p: Program, root: Item, e: Entry, violations: seq<Violation>, asked: seq<Item>, item: Item,
                      queue: seq<Item>, levels: seq<nat>, at: seq<nat>, done: set<Item>, d: Decl,
                      pasted: map<Name, Pointer>)
    requires Closed(p) && Working(p, root, e, violations, [item] + queue, done)
    requires Ordering(p, root, e, violations, asked, [item] + queue, levels, at, done)
    requires item in p.resolve && p.resolve[item] == Local(d) && d !in e.pastes
    requires forall y | y in Mentioned(p, d) :: y in p.resolve
    ensures Ordering(p, root, Entry(pasted, e.pastes + [d], e.refs), violations, asked + [item],
                     queue + Mentioned(p, d),
                     Rest(levels) + OneBelow(levels, |Mentioned(p, d)|), at + levels[..if levels == [] then 0 else 1],
                     done + {item})
  {
    if violations == [] {
      AskPaste(p, root, e.pastes, asked, item, queue, d);
      assert levels[..1] == [levels[0]];
      LayersPaste(p, root, e, item, queue, levels, at, done, d, OneBelow(levels, |Mentioned(p, d)|));
    }
  }

  /** In the end they are in breadth-first order. */
  lemma OrderedAtEnd(p: Program, root: Item, e: Entry, asked: seq<Item>, levels: seq<nat>, at: seq<nat>,
                     done: set<Item>)
    requires root in p.resolve && Working(p, root, e, [], [], done)
    requires Ordering(p, root, e, [], asked, [], levels, at, done) && Coherent(p, root)
    ensures BreadthFirst(p, root, e.pastes) && InAskedOrder(p, root, e.pastes)
  {
    assert asked + [] == asked;
    ReachesSelf(MentionGraph(p), root);
    LayersAreBreadthFirst(p, root, e, levels, at, done);
  }

  /**
   * Without violations the entry is complete; and there are none exactly when the
   * needed names can share one namespace.
   */
  method Closure(p: Program, root: Item) returns (entry: Entry, violations: seq<Violation>)
    requires Closed(p) && root in p.resolve
    ensures violations == [] <==> Coherent(p, root)
    ensures violations == [] ==> Complete(p, root, entry)
    ensures forall v | v in violations :: IsTrue(p, root, v)
    ensures violations == [] ==> BreadthFirst(p, root, entry.pastes) && InAskedOrder(p, root, entry.pastes)
  {
    entry, violations := Entry(map[], [], map[]), [];
    var queue := [root];
    ghost var left, done: set<Item> := Universe(p), {};
    ghost var asked: seq<Item>, levels: seq<nat>, at: seq<nat> := [], [0], [];
    ReachesSelf(MentionGraph(p), root);
    OrderingStarts(p, root);
    while |queue| > 0
      invariant Working(p, root, entry, violations, queue, done)
      invariant Ordering(p, root, entry, violations, asked, queue, levels, at, done)
      invariant forall x | x in p.resolve :: x.name in entry.pasted || x.name in left
      decreases left, |queue|
    {
      var item := queue[0];
      HeadTail(queue);
      queue := queue[1..];
      match p.resolve[item] {
        case Unresolved =>
          Violated(p, root, entry, violations, item, queue, done, Unknown(item));
          violations := violations + [Unknown(item)];
        case Imported(ref) =>
          if item.name == root.name {
            Violated(p, root, entry, violations, item, queue, done, ConfigTypeImported(item));
            violations := violations + [ConfigTypeImported(item)];
          } else if item.name in entry.pasted {
            Violated(p, root, entry, violations, item, queue, done, ImportAfterPaste(item));
            violations := violations + [ImportAfterPaste(item)];
          } else if item.name in entry.refs && entry.refs[item.name] != ref {
            Violated(p, root, entry, violations, item, queue, done, TwoImports(item));
            violations := violations + [TwoImports(item)];
          } else {
            AfterRef(p, root, entry, violations, item, queue, done, ref);
            OrderingNext(p, root, entry, violations, asked, item, queue, levels, at, done);
            entry := entry.(refs := entry.refs[item.name := ref]);
            asked, levels, done := asked + [item], Rest(levels), done + {item};
          }
        case Local(d) =>
          if item.name in entry.pasted && entry.pasted[item.name] == PointerOf(d) {
            AfterRepeat(p, root, entry, violations, item, queue, done, d);
            SamePaste(p, root, entry, item, d);
            OrderingNext(p, root, entry, violations, asked, item, queue, levels, at, done);
            asked, levels, done := asked + [item], Rest(levels), done + {item};
          } else if item.name in entry.pasted {
            Violated(p, root, entry, violations, item, queue, done, TwoDeclarations(item));
            violations := violations + [TwoDeclarations(item)];
          } else if item.name in entry.refs {
            Violated(p, root, entry, violations, item, queue, done, PasteAfterImport(item));
            violations := violations + [PasteAfterImport(item)];
          } else {
            AfterPaste(p, root, entry, violations, item, queue, done, d);
            MentionsNeeded(p, root, item, d);
            OrderingPaste(p, root, entry, violations, asked, item, queue, levels, at, done, d,
                          entry.pasted[item.name := PointerOf(d)]);
            entry := Entry(entry.pasted[item.name := PointerOf(d)], entry.pastes + [d], entry.refs);
            queue := queue + Mentioned(p, d);
            asked, at := asked + [item], at + levels[..if levels == [] then 0 else 1];
            levels := Rest(levels) + OneBelow(levels, |Mentioned(p, d)|);
            done := done + {item};
            left := left - {item.name};
          }
      }
    }
    Finished(p, root, entry, violations, done);
    if violations == [] { OrderedAtEnd(p, root, entry, asked, levels, at, done); }
  }
}
