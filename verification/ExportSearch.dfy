/**
 * `findExportedTypeDecl` of scripts/gen-config-catalog.ts: a depth-first search for
 * an exported type declaration through named and star re-export chains, with one
 * `seen` set shared by all branches.
 */
module ExportSearch {
  import opened Basics
  import opened Graphs
  import opened Sources

  /** `export { source as exported }`. */
  datatype Element = Element(exported: Name, source: Name)

  /** An export statement; `NotFollowed` has no relative `.ts` target or exports a namespace. */
  datatype Export =
    | StarFrom(target: FileId)
    | NamedFrom(target: FileId, elements: seq<Element>)
    | NotFollowed

  /** The type names a file declares, those of them that it exports, and its export statements in order. */
  datatype SourceFile = SourceFile(types: set<Name>, exported: set<Name>, exports: seq<Export>)

  /** A question: does this file export this name? */
  datatype Node = Node(file: FileId, name: Name)

  type Files = map<FileId, SourceFile>

  predicate Declares(files: Files, n: Node) {
    n.file in files && n.name in files[n.file].types
  }

  /** Where an export statement sends a name. */
  function Target(e: Export, name: Name): Option<Node> {
    match e
    case StarFrom(target) => Some(Node(target, name))
    case NamedFrom(target, elements) =>
      (match Find(elements, (el: Element) => el.exported == name)
       case Some(el) => Some(Node(target, el.source))
       case None => None)
    case NotFollowed => None
  }

  function Targets(exports: seq<Export>, name: Name): (r: seq<Node>)
    ensures forall n :: n in r <==> exists e :: e in exports && Target(e, name) == Some(n)
  {
    if exports == [] then []
    else
      var first := Target(exports[0], name);
      (if first.Some? then [first.value] else []) + Targets(exports[1..], name)
  }

  /** Every name a search for `root` can come to ask for. */
  function NamesFor(files: Files, root: Name): set<Name> {
    {root} + set f, i, k |
      f in files && 0 <= i < |files[f].exports| && files[f].exports[i].NamedFrom?
      && 0 <= k < |files[f].exports[i].elements| :: files[f].exports[i].elements[k].source
  }

  /** The re-export graph a search for `root` moves in. */
  function ReexportGraph(files: Files, root: Name): Graph<Node> {
    map f, name | f in files && name in NamesFor(files, root) :: Node(f, name) := Targets(files[f].exports, name)
  }

  lemma TargetStaysInside(files: Files, root: Name, n: Node, e: Export)
    requires n in ReexportGraph(files, root) && e in files[n.file].exports
    requires Target(e, n.name).Some? && Target(e, n.name).value.file in files
    ensures Target(e, n.name).value in ReexportGraph(files, root)
  {
    var i :| 0 <= i < |files[n.file].exports| && files[n.file].exports[i] == e;
    if e.NamedFrom? {
      var el := Find(e.elements, (el: Element) => el.exported == n.name).value;
      var k :| 0 <= k < |e.elements| && e.elements[k] == el;
      assert files[n.file].exports[i].elements[k].source in NamesFor(files, root);
    }
  }

  /** A failing `readFileSync` of a target surfaces as `Unreadable`. */
  datatype Outcome = Hit(at: Node) | NoHit | Unreadable(file: FileId)

  /** The search as a function of the set that it shares; `unseen` holds what it may still enter. */
  function Search(files: Files, n: Node, seen: set<Node>, unseen: set<Node>): (Outcome, set<Node>)
    decreases unseen, 0
  {
    if n in seen || n !in unseen || n.file !in files then (NoHit, seen)
    else if Declares(files, n) then (Hit(n), seen + {n})
    else SearchExports(files, files[n.file].exports, n.name, seen + {n}, unseen - {n})
  }

  function SearchExports(files: Files, exports: seq<Export>, name: Name, seen: set<Node>, unseen: set<Node>)
    : (Outcome, set<Node>)
    decreases unseen, 1, |exports|
  {
    if exports == [] then (NoHit, seen)
    else
      match Target(exports[0], name)
      case None => SearchExports(files, exports[1..], name, seen, unseen)
      case Some(m) =>
        if m.file !in files then (Unreadable(m.file), seen)
        else
          var (r, seen2) := Search(files, m, seen, unseen);
          if r.NoHit? then SearchExports(files, exports[1..], name, seen2, unseen) else (r, seen2)
  }

  lemma SearchNext(files: Files, exports: seq<Export>, i: nat, name: Name, seen: set<Node>, unseen: set<Node>)
    requires i < |exports|
    ensures SearchExports(files, exports[i..], name, seen, unseen) ==
      match Target(exports[i], name)
      case None => SearchExports(files, exports[i + 1..], name, seen, unseen)
      case Some(m) =>
        if m.file !in files then (Unreadable(m.file), seen)
        else
          var (r, seen2) := Search(files, m, seen, unseen);
          if r.NoHit? then SearchExports(files, exports[i + 1..], name, seen2, unseen) else (r, seen2)
  {
    assert exports[i..][1..] == exports[i + 1..];
  }

  class Searcher {
    const files: Files
    const graph: Graph<Node>
    const root: Name
    var seen: set<Node>

    constructor (files: Files, root: Name)
      ensures this.files == files && this.root == root && graph == ReexportGraph(files, root) && seen == {}
    {
      this.files, this.root, graph, seen := files, root, ReexportGraph(files, root), {};
    }

    /** Explored without a hit: the node does not declare its name, and all it leads to has been asked. */
    ghost predicate Exhausted(n: Node, asked: set<Node>) {
      !Declares(files, n) && forall y | Edge(graph, n, y) :: y in asked
    }

    /** Everything asked since `before` is exhausted, but for the node that is still being explored. */
    ghost predicate ExhaustedSince(before: set<Node>, asked: set<Node>, open: Option<Node>) {
      forall x | x in asked && x !in before && open != Some(x) :: Exhausted(x, asked)
    }

    /** A call behind the open node has exhausted what it asked. */
    lemma ExhaustedCarries(before: set<Node>, mid: set<Node>, now: set<Node>, n: Node)
      requires ExhaustedSince(before, mid, Some(n)) && ExhaustedSince(mid, now, None)
      requires forall x | x in mid :: x in now
      ensures ExhaustedSince(before, now, Some(n))
    {
      forall x | x in now && x !in before && x != n ensures Exhausted(x, now) {
        assert x in mid ==> Exhausted(x, mid);
      }
    }

    /** The targets of the first `i` exports have been asked. */
    ghost predicate TargetsAsked(exports: seq<Export>, i: nat, name: Name, asked: set<Node>)
      requires i <= |exports|
    {
      forall k | 0 <= k < i && Target(exports[k], name).Some? :: Target(exports[k], name).value in asked
    }

    lemma OneMoreAsked(exports: seq<Export>, i: nat, name: Name, mid: set<Node>, now: set<Node>)
      requires i < |exports| && TargetsAsked(exports, i, name, mid) && forall x | x in mid :: x in now
      requires Target(exports[i], name).Some? ==> Target(exports[i], name).value in now
      ensures TargetsAsked(exports, i + 1, name, now)
    {
    }

    /** With all its targets asked the open node is exhausted too. */
    lemma ExhaustedAtEnd(before: set<Node>, n: Node)
      requires graph == ReexportGraph(files, root) && n in graph && n.name !in files[n.file].types
      requires ExhaustedSince(before, seen, Some(n))
      requires TargetsAsked(files[n.file].exports, |files[n.file].exports|, n.name, seen)
      ensures ExhaustedSince(before, seen, None)
    {
      var exports := files[n.file].exports;
      forall y | Edge(graph, n, y) ensures y in seen {
        var e :| e in exports && Target(e, n.name) == Some(y);
        var k :| 0 <= k < |exports| && exports[k] == e;
      }
    }

    lemma ExportIsEdge(n: Node, i: nat)
      requires graph == ReexportGraph(files, root) && n in graph && i < |files[n.file].exports|
      requires Target(files[n.file].exports[i], n.name).Some?
      ensures var m := Target(files[n.file].exports[i], n.name).value;
        Edge(graph, n, m) && Reaches(graph, n, m) && (m.file in files ==> m in graph)
    {
      var exports := files[n.file].exports;
      var m := Target(exports[i], n.name).value;
      assert exports[i] in exports;
      ReachesSelf(graph, m);
      ReachesStep(graph, n, m, m);
      if m.file in files { TargetStaysInside(files, root, n, exports[i]); }
    }

    method FindExported(n: Node, ghost unseen: set<Node>) returns (r: Outcome)
      requires graph == ReexportGraph(files, root) && n in graph
      requires forall x | x in graph :: x in seen || x in unseen
      requires forall x | x in seen :: x in graph
      modifies this
      ensures forall x | x in old(seen) :: x in seen
      ensures forall x | x in seen :: x in graph
      ensures r.Hit? ==> Declares(files, r.at) && Reaches(graph, n, r.at)
      ensures r.Unreadable? ==> r.file !in files && exists m :: Reaches(graph, n, m) && m.file == r.file
      ensures r.NoHit? ==> n in seen && ExhaustedSince(old(seen), seen, None)
      ensures (r, seen) == Search(files, n, old(seen), unseen)
      decreases unseen
    {
      if n in seen { return NoHit; }
      ghost var before := seen;
      seen := seen + {n};
      ReachesSelf(graph, n);
      if n.name in files[n.file].types { return Hit(n); }
      var exports := files[n.file].exports;
      ghost var found := SearchExports(files, exports, n.name, seen, unseen - {n});
      assert exports[0..] == exports;
      for i := 0 to |exports|
        invariant forall x | x in before :: x in seen
        invariant n in seen && forall x | x in seen :: x in graph
        invariant ExhaustedSince(before, seen, Some(n)) && TargetsAsked(exports, i, n.name, seen)
        invariant found == SearchExports(files, exports[i..], n.name, seen, unseen - {n})
      {
        SearchNext(files, exports, i, n.name, seen, unseen - {n});
        var next := Target(exports[i], n.name);
        ghost var mid := seen;
        if next.None? {
          OneMoreAsked(exports, i, n.name, mid, seen);
          continue;
        }
        var m := next.value;
        ExportIsEdge(n, i);
        if m.file !in files { return Unreadable(m.file); }
        r := FindExported(m, unseen - {n});
        if r.Hit? {
          ReachesStep(graph, n, m, r.at);
          return;
        }
        if r.Unreadable? {
          ghost var far :| Reaches(graph, m, far) && far.file == r.file;
          ReachesStep(graph, n, m, far);
          return;
        }
        ExhaustedCarries(before, mid, seen, n);
        OneMoreAsked(exports, i, n.name, mid, seen);
      }
      ExhaustedAtEnd(before, n);
      return NoHit;
    }
  }

  /** The search from a fresh set. */
  function SearchFor(files: Files, start: Node): Outcome {
    Search(files, start, {}, ReexportGraph(files, start.name).Keys).0
  }

  /**
   * A declaration is returned only if a reachable node declares its name, and "none" is
   * returned only if no reachable node does: the shared set loses nothing on cyclic or
   * diamond re-exports. The remaining outcome is a reachable target that cannot be read.
   */
  method FindExportedTypeDecl(files: Files, start: Node) returns (r: Outcome)
    requires start.file in files
    ensures var graph := ReexportGraph(files, start.name);
      && (r.Hit? ==> Declares(files, r.at) && Reaches(graph, start, r.at))
      && (r.NoHit? ==> forall m | Reaches(graph, start, m) :: m.file in files && !Declares(files, m))
      && (r.Unreadable? ==> r.file !in files && exists m :: Reaches(graph, start, m) && m.file == r.file)
    ensures var graph := ReexportGraph(files, start.name);
      (forall m | Reaches(graph, start, m) :: m.file in files) ==>
        (r.Hit? <==> exists m :: Reaches(graph, start, m) && Declares(files, m))
    ensures r == SearchFor(files, start)
  {
    var searcher := new Searcher(files, start.name);
    r := searcher.FindExported(start, searcher.graph.Keys);
    if r.NoHit? {
      forall m | Reaches(searcher.graph, start, m) ensures m.file in files && !Declares(files, m) {
        assert forall x | x in searcher.seen :: searcher.Exhausted(x, searcher.seen);
        ReachesStaysInside(searcher.graph, searcher.seen, start, m);
      }
    }
  }
}
