/**
 * The schema-path check of scripts/gen-config-catalog.ts: does a declared config
 * type have a member at a key path? The walk answers found, missing or unknown and
 * shares one `seen` set; it is measured against a least-fixpoint meaning of
 * "the type has this path" in which every type the walk cannot see through may
 * hold anything.
 */
module TypeLookup {
  import opened Basics

  datatype PathStep = Member(name: string) | ArrayHop

  datatype TypeOperator = Readonly | Keyof | Unique

  /** A type member: a property signature with its source text and its real key, or
      another member (method, accessor; keyless for index and call signatures). */
  datatype TypeElement =
    | Property(text: string, key: string, typ: Option<TypeNode>)
    | OtherElement(elementKey: Option<string>)

  /** How a reference names its type: by a plain name, by a namespace's member, or by a type
      parameter of the declaration around it. */
  datatype Naming = Bare | Qualified | Parameter

  datatype TypeNode =
    | Literal(members: seq<TypeElement>)
    | Parenthesized(inner: TypeNode)
    | Intersection(types: seq<TypeNode>)
    | Union(types: seq<TypeNode>)
    | ArrayOf(element: TypeNode)
    | Operator(keyword: TypeOperator, operand: TypeNode)
    | Indexed(owner: TypeNode, index: Option<string>)
    | Reference(head: string, naming: Naming, args: seq<TypeNode>)
    | OtherType

  /** A base in a heritage clause: an identifier, or some other expression. */
  datatype Heritage = Base(name: string) | ComputedBase

  datatype Decl =
    | Interface(members: seq<TypeElement>, heritage: seq<Heritage>)
    | Alias(body: TypeNode)
    | Enum

  datatype DeclId = DeclId(file: string, pos: nat)

  /** The parsed sources. `resolves` is the name resolution of the walk; `beyond` holds the names
      that a file binds to what this resolution cannot reach, such as a class of its own or an
      import from outside the workspace. */
  datatype World = World(decls: map<DeclId, Decl>, resolves: map<(string, string), DeclId>,
                         beyond: set<(string, string)>)

  /** The file declares or imports the name. */
  predicate Binds(w: World, file: string, name: string) {
    (file, name) in w.resolves || (file, name) in w.beyond
  }

  /** Where a walk stands: at a type in a file, or at a named declaration. */
  datatype Site = TypeAt(file: string, node: TypeNode) | DeclAt(id: DeclId)

  /** One step of looking: an answer, or where to look next with which path. */
  datatype Shape =
    | Present
    | Absent
    | Opaque
    | Go(site: Site, steps: seq<PathStep>)
    | SomeOf(sites: seq<Site>, steps: seq<PathStep>)
    | EveryOf(sites: seq<Site>, steps: seq<PathStep>)

  const PASSTHROUGH: set<string> := {"Partial", "Required", "Readonly", "NonNullable"}
  const ARRAYS: set<string> := {"Array", "ReadonlyArray"}

  function NamedSite(w: World, file: string, name: string): Site {
    if (file, name) in w.resolves then DeclAt(w.resolves[(file, name)]) else TypeAt(file, OtherType)
  }

  function SitesOf(file: string, types: seq<TypeNode>): (r: seq<Site>)
    ensures |r| == |types| && forall i | 0 <= i < |r| :: r[i] == TypeAt(file, types[i])
  {
    seq(|types|, i requires 0 <= i < |types| => TypeAt(file, types[i]))
  }

  function BasesOf(w: World, file: string, heritage: seq<Heritage>): (r: seq<Site>)
    ensures |r| == |heritage|
    ensures forall i | 0 <= i < |r| :: r[i].DeclAt? <==> heritage[i].Base? && (file, heritage[i].name) in w.resolves
    ensures forall i | 0 <= i < |r| && r[i].DeclAt? :: r[i].id == w.resolves[(file, heritage[i].name)]
    ensures forall i | 0 <= i < |r| && r[i].TypeAt? :: r[i] == TypeAt(file, OtherType)
  {
    seq(|heritage|, i requires 0 <= i < |heritage| =>
      match heritage[i]
      case Base(name) => NamedSite(w, file, name)
      case ComputedBase => TypeAt(file, OtherType))
  }

  function MemberShape(file: string, m: TypeElement, rest: seq<PathStep>): Shape {
    if rest == [] then Present
    else if m.Property? && m.typ.Some? then Go(TypeAt(file, m.typ.value), rest)
    else Opaque
  }

  // ---------------------------------------------------------------------------
  // What the walk does
  // ---------------------------------------------------------------------------

  /** `intoMembers`: the first property signature whose source text is the step's name. */
  function SpelledMember(members: seq<TypeElement>, name: string): Option<TypeElement> {
    Find(members, (m: TypeElement) => m.Property? && m.text == name)
  }

  /** The dispatch of `lookupPath` on a nonempty path. */
  function WalkShape(w: World, site: Site, steps: seq<PathStep>): Shape
    requires steps != []
  {
    var step := steps[0];
    match site
    case DeclAt(id) =>
      if id !in w.decls then Opaque
      else (match w.decls[id]
            case Interface(members, heritage) =>
              if step.ArrayHop? then Opaque
              else (match SpelledMember(members, step.name)
                    case Some(m) => MemberShape(id.file, m, steps[1..])
                    case None => SomeOf(BasesOf(w, id.file, heritage), steps))
            case Alias(body) => Go(TypeAt(id.file, body), steps)
            case Enum => Opaque)
    case TypeAt(file, node) =>
      match node
      case Literal(members) =>
        if step.ArrayHop? then Opaque
        else (match SpelledMember(members, step.name)
              case Some(m) => MemberShape(file, m, steps[1..])
              case None => Absent)
      case Parenthesized(inner) => Go(TypeAt(file, inner), steps)
      case Intersection(types) => SomeOf(SitesOf(file, types), steps)
      case Union(types) => EveryOf(SitesOf(file, types), steps)
      case ArrayOf(element) => if step.ArrayHop? then Go(TypeAt(file, element), steps[1..]) else Opaque
      case Operator(_, operand) => Go(TypeAt(file, operand), steps)
      case Indexed(owner, index) =>
        if index.Some? then Go(TypeAt(file, owner), [Member(index.value)] + steps) else Opaque
      case Reference(head, naming, args) =>
        if head in PASSTHROUGH && args != [] then Go(TypeAt(file, args[0]), steps)
        else if head in ARRAYS && args != [] then
          if step.ArrayHop? then Go(TypeAt(file, args[0]), steps[1..]) else Opaque
        else if naming.Qualified? || (file, head) !in w.resolves then Opaque
        else Go(DeclAt(w.resolves[(file, head)]), steps)
      case OtherType => Opaque
  }

  /** `Overflow` is the engine's stack overflow when recursion exceeds the given depth. */
  datatype Verdict = Found | Missing | Unknown | Overflow

  type Key = (DeclId, nat)

  datatype Answer = Answer(verdict: Verdict, seen: set<Key>)

  function Combine(verdicts: seq<Verdict>): Verdict {
    if Overflow in verdicts then Overflow
    else if Found in verdicts then Found
    else if Unknown in verdicts then Unknown
    else Missing
  }

  function Agree(verdicts: seq<Verdict>): Verdict {
    if Overflow in verdicts then Overflow
    else if forall v | v in verdicts :: v == Found then Found
    else if forall v | v in verdicts :: v == Missing then Missing
    else Unknown
  }

  /** Only interfaces and aliases are guarded against revisits. */
  predicate Guarded(w: World, site: Site) {
    site.DeclAt? && site.id in w.decls && !w.decls[site.id].Enum?
  }

  predicate Revisited(w: World, site: Site, steps: seq<PathStep>, seen: set<Key>) {
    Guarded(w, site) && (site.id, |steps|) in seen
  }

  function Marked(w: World, site: Site, steps: seq<PathStep>, seen: set<Key>): set<Key> {
    if Guarded(w, site) then seen + {(site.id, |steps|)} else seen
  }

  function Lookup(w: World, site: Site, steps: seq<PathStep>, seen: set<Key>, depth: nat): Answer
    decreases depth, 0, 0
  {
    if depth == 0 then Answer(Overflow, seen)
    else if steps == [] then Answer(Found, seen)
    else if Revisited(w, site, steps, seen) then Answer(Unknown, seen)
    else Follow(w, WalkShape(w, site, steps), Marked(w, site, steps, seen), depth - 1)
  }

  /** Carry on as the dispatch says. */
  function Follow(w: World, shape: Shape, seen: set<Key>, depth: nat): Answer
    decreases depth, 2, 0
  {
    match shape
    case Present => Answer(Found, seen)
    case Absent => Answer(Missing, seen)
    case Opaque => Answer(Unknown, seen)
    case Go(next, rest) => Lookup(w, next, rest, seen, depth)
    case SomeOf(sites, rest) =>
      var (vs, seen2) := LookupEach(w, sites, rest, seen, depth);
      Answer(Combine(vs), seen2)
    case EveryOf(sites, rest) =>
      var (vs, seen2) := LookupEach(w, sites, rest, seen, depth);
      Answer(Agree(vs), seen2)
  }

  /** Left to right over the parts, threading the shared set; an overflow unwinds at once. */
  function LookupEach(w: World, sites: seq<Site>, steps: seq<PathStep>, seen: set<Key>, depth: nat)
    : (r: (seq<Verdict>, set<Key>))
    ensures Overflow !in r.0 ==> |r.0| == |sites|
    decreases depth, 1, |sites|
  {
    if sites == [] then ([], seen)
    else
      var first := Lookup(w, sites[0], steps, seen, depth);
      if first.verdict == Overflow then ([Overflow], first.seen)
      else
        var (others, seen2) := LookupEach(w, sites[1..], steps, first.seen, depth);
        ([first.verdict] + others, seen2)
  }

  // ---------------------------------------------------------------------------
  // What a type means
  // ---------------------------------------------------------------------------

  function KeyOf(m: TypeElement): Option<string> {
    if m.Property? then Some(m.key) else m.elementKey
  }

  predicate HasKeyless(members: seq<TypeElement>) {
    exists m | m in members :: KeyOf(m).None?
  }

  function OwnMember(members: seq<TypeElement>, name: string): Option<TypeElement> {
    Find(members, (m: TypeElement) => KeyOf(m) == Some(name))
  }

  /** Members count by their real key whatever their kind, a keyless signature may
      admit any key, whatever a file binds shadows built-in names, a type parameter may
      stand for anything, and only `readonly` leaves an operand's members alone. */
  function MeaningShape(w: World, site: Site, steps: seq<PathStep>): Shape
    requires steps != []
  {
    var step := steps[0];
    match site
    case DeclAt(id) =>
      if id !in w.decls then Opaque
      else (match w.decls[id]
            case Interface(members, heritage) =>
              if step.ArrayHop? then Opaque
              else (match OwnMember(members, step.name)
                    case Some(m) => MemberShape(id.file, m, steps[1..])
                    case None =>
                      if HasKeyless(members) then Opaque else SomeOf(BasesOf(w, id.file, heritage), steps))
            case Alias(body) => Go(TypeAt(id.file, body), steps)
            case Enum => Opaque)
    case TypeAt(file, node) =>
      match node
      case Literal(members) =>
        if step.ArrayHop? then Opaque
        else (match OwnMember(members, step.name)
              case Some(m) => MemberShape(file, m, steps[1..])
              case None => if HasKeyless(members) then Opaque else Absent)
      case Parenthesized(inner) => Go(TypeAt(file, inner), steps)
      case Intersection(types) => SomeOf(SitesOf(file, types), steps)
      case Union(types) => EveryOf(SitesOf(file, types), steps)
      case ArrayOf(element) => if step.ArrayHop? then Go(TypeAt(file, element), steps[1..]) else Opaque
      case Operator(keyword, operand) => if keyword.Readonly? then Go(TypeAt(file, operand), steps) else Opaque
      case Indexed(owner, index) =>
        if index.Some? then Go(TypeAt(file, owner), [Member(index.value)] + steps) else Opaque
      case Reference(head, naming, args) =>
        if !naming.Bare? then Opaque
        else if (file, head) in w.resolves then Go(DeclAt(w.resolves[(file, head)]), steps)
        else if (file, head) in w.beyond then Opaque
        else if head in PASSTHROUGH && args != [] then Go(TypeAt(file, args[0]), steps)
        else if head in ARRAYS && args != [] && step.ArrayHop? then Go(TypeAt(file, args[0]), steps[1..])
        else Opaque
      case OtherType => Opaque
  }

  type Oracle = (Site, seq<PathStep>) -> bool

  /** The path is present at the site. `hidden` says what opaque types hold; `lenient`
      picks the reading of unions: present in some branch, or in every branch. */
  least predicate Has(w: World, hidden: Oracle, lenient: bool, site: Site, steps: seq<PathStep>) {
    steps == [] ||
    match MeaningShape(w, site, steps)
    case Present => true
    case Absent => false
    case Opaque => hidden(site, steps)
    case Go(next, rest) => Has(w, hidden, lenient, next, rest)
    case SomeOf(sites, rest) => exists i :: 0 <= i < |sites| && Has(w, hidden, lenient, sites[i], rest)
    case EveryOf(sites, rest) =>
      if lenient then exists i :: 0 <= i < |sites| && Has(w, hidden, lenient, sites[i], rest)
      else forall i :: 0 <= i < |sites| ==> Has(w, hidden, lenient, sites[i], rest)
  }

  // ---------------------------------------------------------------------------
  // Where the walk reads types correctly
  // ---------------------------------------------------------------------------

  /** The walk takes the member that is meant, and without one no keyless signature may admit the name. */
  predicate Legible(members: seq<TypeElement>, name: string) {
    && SpelledMember(members, name) == OwnMember(members, name)
    && (OwnMember(members, name).None? ==> !HasKeyless(members))
  }

  /** What a walk can come upon: the names that are looked up, and the declarations. */
  datatype Scope = Scope(names: string -> bool, decls: set<DeclId>)

  /** Every name and every declaration. */
  function All(w: World): Scope {
    Scope(name => true, w.decls.Keys)
  }

  ghost predicate StepsIn(scope: Scope, steps: seq<PathStep>) {
    forall step | step in steps && step.Member? :: scope.names(step.name)
  }

  predicate DeclIn(w: World, scope: Scope, id: DeclId) {
    id in w.decls ==> id in scope.decls
  }

  predicate NameIn(w: World, scope: Scope, file: string, name: string) {
    (file, name) in w.resolves ==> DeclIn(w, scope, w.resolves[(file, name)])
  }

  ghost predicate PlainMembers(w: World, scope: Scope, file: string, members: seq<TypeElement>) {
    && (forall name | scope.names(name) :: Legible(members, name))
    && (forall m | m in members && m.Property? && m.typ.Some? && scope.names(m.text) ::
          PlainType(w, scope, file, m.typ.value))
  }

  /** A wrapper or array name that is looked through is the built-in one; any other name is not
      a type parameter's that the file binds as well. */
  predicate PlainName(w: World, scope: Scope, file: string, head: string, naming: Naming, args: seq<TypeNode>) {
    if head in PASSTHROUGH + ARRAYS && args != [] then naming.Bare? && !Binds(w, file, head)
    else match naming
         case Bare => NameIn(w, scope, file, head)
         case Qualified => true
         case Parameter => (file, head) !in w.resolves
  }

  /** Members are legible under the names that are looked up, indexed access included; operators
      are `readonly`, unions are not empty, and names are plain. */
  ghost predicate PlainType(w: World, scope: Scope, file: string, node: TypeNode) {
    match node
    case Literal(members) => PlainMembers(w, scope, file, members)
    case Parenthesized(inner) => PlainType(w, scope, file, inner)
    case Intersection(types) => forall t | t in types :: PlainType(w, scope, file, t)
    case Union(types) => types != [] && forall t | t in types :: PlainType(w, scope, file, t)
    case ArrayOf(element) => PlainType(w, scope, file, element)
    case Operator(keyword, operand) => keyword.Readonly? && PlainType(w, scope, file, operand)
    case Indexed(owner, index) => index.Some? ==> scope.names(index.value) && PlainType(w, scope, file, owner)
    case Reference(head, naming, args) =>
      && PlainName(w, scope, file, head, naming, args)
      && (head in PASSTHROUGH + ARRAYS && args != [] ==> PlainType(w, scope, file, args[0]))
    case OtherType => true
  }

  ghost predicate PlainDecl(w: World, scope: Scope, file: string, d: Decl) {
    match d
    case Interface(members, heritage) =>
      && PlainMembers(w, scope, file, members)
      && forall h | h in heritage && h.Base? :: NameIn(w, scope, file, h.name)
    case Alias(body) => PlainType(w, scope, file, body)
    case Enum => true
  }

  /** The declarations in the scope are plain and lead to no others. */
  ghost predicate PlainWorld(w: World, scope: Scope) {
    forall id | id in w.decls && id in scope.decls :: PlainDecl(w, scope, id.file, w.decls[id])
  }

  ghost predicate PlainSite(w: World, scope: Scope, site: Site) {
    match site
    case TypeAt(file, node) => PlainType(w, scope, file, node)
    case DeclAt(id) => DeclIn(w, scope, id)
  }

  /** Property signatures spelled by their key are legible under every name. */
  lemma {:induction false} SpelledByKeyIsLegible(members: seq<TypeElement>, name: string)
    requires forall m | m in members :: m.Property? && m.text == m.key
    ensures Legible(members, name)
  {
    if members != [] {
      assert members[0] in members;
      SpelledByKeyIsLegible(members[1..], name);
    }
  }

  ghost predicate PlainShape(w: World, scope: Scope, s: Shape) {
    match s
    case Go(next, rest) => PlainSite(w, scope, next) && StepsIn(scope, rest)
    case SomeOf(sites, rest) => StepsIn(scope, rest) && forall i | 0 <= i < |sites| :: PlainSite(w, scope, sites[i])
    case EveryOf(sites, rest) =>
      sites != [] && StepsIn(scope, rest) && forall i | 0 <= i < |sites| :: PlainSite(w, scope, sites[i])
    case _ => true
  }

  /** On plain types the walk's dispatch is the meaning, and it stays on plain types. */
  lemma PlainShapesAgree(w: World, scope: Scope, site: Site, steps: seq<PathStep>)
    requires PlainWorld(w, scope) && PlainSite(w, scope, site) && StepsIn(scope, steps) && steps != []
    ensures WalkShape(w, site, steps) == MeaningShape(w, site, steps)
    ensures PlainShape(w, scope, WalkShape(w, site, steps))
  {
    match site
    case DeclAt(id) => PlainDeclAgrees(w, scope, id, steps);
    case TypeAt(file, node) => PlainTypeAgrees(w, scope, file, node, steps);
  }

  lemma PlainDeclAgrees(w: World, scope: Scope, id: DeclId, steps: seq<PathStep>)
    requires PlainWorld(w, scope) && DeclIn(w, scope, id) && StepsIn(scope, steps) && steps != []
    ensures WalkShape(w, DeclAt(id), steps) == MeaningShape(w, DeclAt(id), steps)
    ensures PlainShape(w, scope, WalkShape(w, DeclAt(id), steps))
  {
    if id in w.decls {
      assert PlainDecl(w, scope, id.file, w.decls[id]);
      if w.decls[id].Interface? && steps[0].Member? {
        MemberAgrees(w, scope, id.file, w.decls[id].members, steps);
      }
    }
  }

  lemma PlainTypeAgrees(w: World, scope: Scope, file: string, node: TypeNode, steps: seq<PathStep>)
    requires PlainType(w, scope, file, node) && StepsIn(scope, steps) && steps != []
    ensures WalkShape(w, TypeAt(file, node), steps) == MeaningShape(w, TypeAt(file, node), steps)
    ensures PlainShape(w, scope, WalkShape(w, TypeAt(file, node), steps))
  {
    if node.Literal? && steps[0].Member? {
      MemberAgrees(w, scope, file, node.members, steps);
    }
  }

  lemma MemberAgrees(w: World, scope: Scope, file: string, members: seq<TypeElement>, steps: seq<PathStep>)
    requires PlainMembers(w, scope, file, members) && StepsIn(scope, steps) && steps != [] && steps[0].Member?
    ensures Legible(members, steps[0].name)
    ensures var m := SpelledMember(members, steps[0].name);
      m.Some? ==> PlainShape(w, scope, MemberShape(file, m.value, steps[1..]))
  {
    assert steps[0] in steps;
  }

  /** Both definite answers are right, whatever the opaque types hold. */
  ghost predicate Sound(w: World, hidden: Oracle, lenient: bool, site: Site, steps: seq<PathStep>, v: Verdict) {
    && (v == Found ==> Has(w, hidden, lenient, site, steps))
    && (v == Missing ==> !Has(w, hidden, lenient, site, steps))
  }

  ghost predicate EachSound(w: World, hidden: Oracle, lenient: bool, sites: seq<Site>, steps: seq<PathStep>,
                            vs: seq<Verdict>)
  {
    Overflow !in vs ==>
      |vs| == |sites| && forall i | 0 <= i < |sites| :: Sound(w, hidden, lenient, sites[i], steps, vs[i])
  }

  ghost predicate SomeHas(w: World, hidden: Oracle, lenient: bool, sites: seq<Site>, steps: seq<PathStep>) {
    exists i :: 0 <= i < |sites| && Has(w, hidden, lenient, sites[i], steps)
  }

  ghost predicate EveryHas(w: World, hidden: Oracle, lenient: bool, sites: seq<Site>, steps: seq<PathStep>) {
    forall i :: 0 <= i < |sites| ==> Has(w, hidden, lenient, sites[i], steps)
  }

  /** One unfolding of `Has`. */
  ghost predicate ShapeHas(w: World, hidden: Oracle, lenient: bool, unseen: bool, shape: Shape) {
    match shape
    case Present => true
    case Absent => false
    case Opaque => unseen
    case Go(next, rest) => Has(w, hidden, lenient, next, rest)
    case SomeOf(sites, rest) => SomeHas(w, hidden, lenient, sites, rest)
    case EveryOf(sites, rest) =>
      if lenient then SomeHas(w, hidden, lenient, sites, rest) else EveryHas(w, hidden, lenient, sites, rest)
  }

  lemma HasUnfolds(w: World, hidden: Oracle, lenient: bool, site: Site, steps: seq<PathStep>)
    requires steps != []
    ensures Has(w, hidden, lenient, site, steps)
       <==> ShapeHas(w, hidden, lenient, hidden(site, steps), MeaningShape(w, site, steps))
  {
  }

  lemma PartsAreSound(w: World, hidden: Oracle, lenient: bool, sites: seq<Site>, steps: seq<PathStep>, vs: seq<Verdict>)
    requires EachSound(w, hidden, lenient, sites, steps, vs)
    ensures Combine(vs) == Found ==> SomeHas(w, hidden, lenient, sites, steps)
    ensures Combine(vs) == Missing || (Agree(vs) == Missing && sites != []) ==>
      !SomeHas(w, hidden, lenient, sites, steps)
    ensures Agree(vs) == Found ==> EveryHas(w, hidden, lenient, sites, steps)
  {
    if Overflow !in vs {
      assert forall i | 0 <= i < |vs| :: vs[i] in vs;
    }
  }

  lemma {:induction false} FollowIsSound(w: World, scope: Scope, hidden: Oracle, lenient: bool, unseen: bool,
                                         shape: Shape, seen: set<Key>, depth: nat)
    requires PlainWorld(w, scope) && PlainShape(w, scope, shape)
    ensures Follow(w, shape, seen, depth).verdict == Found ==> ShapeHas(w, hidden, lenient, unseen, shape)
    ensures Follow(w, shape, seen, depth).verdict == Missing ==> !ShapeHas(w, hidden, lenient, unseen, shape)
    decreases depth, 2, 0
  {
    match shape {
      case Go(next, rest) =>
        LookupIsSound(w, scope, hidden, lenient, next, rest, seen, depth);
      case SomeOf(sites, rest) =>
        EachIsSound(w, scope, hidden, lenient, sites, rest, seen, depth);
        PartsAreSound(w, hidden, lenient, sites, rest, LookupEach(w, sites, rest, seen, depth).0);
      case EveryOf(sites, rest) =>
        EachIsSound(w, scope, hidden, lenient, sites, rest, seen, depth);
        PartsAreSound(w, hidden, lenient, sites, rest, LookupEach(w, sites, rest, seen, depth).0);
        assert EveryHas(w, hidden, lenient, sites, rest) ==> Has(w, hidden, lenient, sites[0], rest);
      case _ =>
    }
  }

  /** Whatever the shared `seen` set holds, "found" means present and "missing" means absent. */
  lemma {:induction false} LookupIsSound(w: World, scope: Scope, hidden: Oracle, lenient: bool, site: Site,
                                         steps: seq<PathStep>, seen: set<Key>, depth: nat)
    requires PlainWorld(w, scope) && PlainSite(w, scope, site) && StepsIn(scope, steps)
    ensures Sound(w, hidden, lenient, site, steps, Lookup(w, site, steps, seen, depth).verdict)
    decreases depth, 0, 0
  {
    if depth > 0 && steps != [] && !Revisited(w, site, steps, seen) {
      PlainShapesAgree(w, scope, site, steps);
      HasUnfolds(w, hidden, lenient, site, steps);
      FollowIsSound(w, scope, hidden, lenient, hidden(site, steps), WalkShape(w, site, steps),
                    Marked(w, site, steps, seen), depth - 1);
    }
  }

  lemma {:induction false} EachIsSound(w: World, scope: Scope, hidden: Oracle, lenient: bool, sites: seq<Site>,
                                       steps: seq<PathStep>, seen: set<Key>, depth: nat)
    requires PlainWorld(w, scope) && StepsIn(scope, steps)
    requires forall i | 0 <= i < |sites| :: PlainSite(w, scope, sites[i])
    ensures EachSound(w, hidden, lenient, sites, steps, LookupEach(w, sites, steps, seen, depth).0)
    decreases depth, 1, |sites|
  {
    if sites != [] {
      var first := Lookup(w, sites[0], steps, seen, depth);
      LookupIsSound(w, scope, hidden, lenient, sites[0], steps, seen, depth);
      EachIsSound(w, scope, hidden, lenient, sites[1..], steps, first.seen, depth);
    }
  }

  // ---------------------------------------------------------------------------
  // The walk with its shared set
  // ---------------------------------------------------------------------------

  /** The caller's `seen` set, shared and extended by the recursive walk. */
  class PathWalk {
    var seen: set<Key>

    constructor ()
      ensures seen == {}
    {
      seen := {};
    }

    /** `lookupPath`; the answer and the set it leaves are those of the function form. */
    method LookupPath(w: World, site: Site, steps: seq<PathStep>, depth: nat) returns (verdict: Verdict)
      modifies this
      ensures Answer(verdict, seen) == Lookup(w, site, steps, old(seen), depth)
      decreases depth, 0, 0
    {
      if depth == 0 { return Overflow; }
      if |steps| == 0 { return Found; }
      if Guarded(w, site) {
        if (site.id, |steps|) in seen { return Unknown; }
        seen := seen + {(site.id, |steps|)};
      }
      match WalkShape(w, site, steps) {
        case Present => verdict := Found;
        case Absent => verdict := Missing;
        case Opaque => verdict := Unknown;
        case Go(next, rest) => verdict := LookupPath(w, next, rest, depth - 1);
        case SomeOf(sites, rest) =>
          var vs := LookupParts(w, sites, rest, depth - 1);
          verdict := Combine(vs);
        case EveryOf(sites, rest) =>
          var vs := LookupParts(w, sites, rest, depth - 1);
          verdict := Agree(vs);
      }
    }

    /** The loops over heritage bases, intersection parts and union branches. */
    method LookupParts(w: World, sites: seq<Site>, steps: seq<PathStep>, depth: nat) returns (verdicts: seq<Verdict>)
      modifies this
      ensures (verdicts, seen) == LookupEach(w, sites, steps, old(seen), depth)
      decreases depth, 1, 0
    {
      verdicts := [];
      ghost var all := LookupEach(w, sites, steps, seen, depth);
      assert sites[0..] == sites;
      for i := 0 to |sites|
        invariant all.0 == verdicts + LookupEach(w, sites[i..], steps, seen, depth).0
        invariant all.1 == LookupEach(w, sites[i..], steps, seen, depth).1
      {
        ghost var rest := LookupEach(w, sites[i..], steps, seen, depth).0;
        assert sites[i..][1..] == sites[i + 1..];
        var verdict := LookupPath(w, sites[i], steps, depth);
        assert rest == [verdict] + rest[1..];
        verdicts := verdicts + [verdict];
        assert all.0 == verdicts + rest[1..];
        if verdict == Overflow {
          assert rest[1..] == [];
          return;
        }
      }
      assert all.0 == verdicts;
    }
  }
}
