/**
 * Termination of the path walk of scripts/gen-config-catalog.ts. The guard is keyed on the
 * path's length, and indexed access lengthens the path: the walk ends in a world whose
 * declarations leave bounded room for growth, and never ends on a cycle that only grows.
 */
module TypeTermination {
  import opened Basics
  import opened TypeLookup

  // ---------------------------------------------------------------------------
  // Room for growth
  // ---------------------------------------------------------------------------

  /** How far paths may grow behind each declaration. */
  type Rooms = map<DeclId, nat>

  function RoomOf(rooms: Rooms, id: DeclId): nat {
    if id in rooms then rooms[id] else 0
  }

  /** Room behind a member or array element, which takes a step off the path. */
  function Less(room: nat): nat {
    if room == 0 then 0 else room - 1
  }

  /** How far the path may grow from a type on: one step for each indexed access. */
  function Room(w: World, rooms: Rooms, file: string, node: TypeNode): nat
    decreases node, 1
  {
    match node
    case Literal(members) => Less(MembersRoom(w, rooms, file, members))
    case Parenthesized(inner) => Room(w, rooms, file, inner)
    case Intersection(types) => TypesRoom(w, rooms, file, types)
    case Union(types) => TypesRoom(w, rooms, file, types)
    case ArrayOf(element) => Less(Room(w, rooms, file, element))
    case Operator(_, operand) => Room(w, rooms, file, operand)
    case Indexed(owner, index) => if index.Some? then 1 + Room(w, rooms, file, owner) else 0
    case Reference(head, naming, args) =>
      if head in PASSTHROUGH && args != [] then Room(w, rooms, file, args[0])
      else if head in ARRAYS && args != [] then Less(Room(w, rooms, file, args[0]))
      else if naming.Qualified? || (file, head) !in w.resolves then 0
      else RoomOf(rooms, w.resolves[(file, head)])
    case OtherType => 0
  }

  function TypesRoom(w: World, rooms: Rooms, file: string, types: seq<TypeNode>): (room: nat)
    ensures forall t | t in types :: Room(w, rooms, file, t) <= room
    decreases types, 0
  {
    if types == [] then 0 else Larger(Room(w, rooms, file, types[0]), TypesRoom(w, rooms, file, types[1..]))
  }

  function MembersRoom(w: World, rooms: Rooms, file: string, members: seq<TypeElement>): (room: nat)
    ensures forall m | m in members && m.Property? && m.typ.Some? :: Room(w, rooms, file, m.typ.value) <= room
    decreases members, 0
  {
    if members == [] then 0
    else
      var rest := MembersRoom(w, rooms, file, members[1..]);
      if members[0].Property? && members[0].typ.Some? then Larger(Room(w, rooms, file, members[0].typ.value), rest)
      else rest
  }

  function SiteRoom(w: World, rooms: Rooms, site: Site): nat {
    match site
    case TypeAt(file, node) => Room(w, rooms, file, node)
    case DeclAt(id) => RoomOf(rooms, id)
  }

  /** A declaration's members, bases and body stay within its room. */
  predicate Fits(w: World, rooms: Rooms, id: DeclId)
    requires id in w.decls
  {
    match w.decls[id]
    case Interface(members, heritage) =>
      && Less(MembersRoom(w, rooms, id.file, members)) <= RoomOf(rooms, id)
      && forall base | base in BasesOf(w, id.file, heritage) :: SiteRoom(w, rooms, base) <= RoomOf(rooms, id)
    case Alias(body) => Room(w, rooms, id.file, body) <= RoomOf(rooms, id)
    case Enum => true
  }

  /** Indexed access is well-founded: no way around the declarations makes paths longer and longer. */
  predicate WellFounded(w: World, rooms: Rooms) {
    forall id | id in w.decls :: Fits(w, rooms, id)
  }

  // ---------------------------------------------------------------------------
  // Enough depth
  // ---------------------------------------------------------------------------

  function Height(node: TypeNode): (h: nat)
    decreases node, 1
  {
    1 + match node
        case Literal(members) => MembersHeight(members)
        case Parenthesized(inner) => Height(inner)
        case Intersection(types) => TypesHeight(types)
        case Union(types) => TypesHeight(types)
        case ArrayOf(element) => Height(element)
        case Operator(_, operand) => Height(operand)
        case Indexed(owner, _) => Height(owner)
        case Reference(_, _, args) => TypesHeight(args)
        case OtherType => 0
  }

  function TypesHeight(types: seq<TypeNode>): (h: nat)
    ensures forall t | t in types :: Height(t) <= h
    decreases types, 0
  {
    if types == [] then 0 else Larger(Height(types[0]), TypesHeight(types[1..]))
  }

  function MembersHeight(members: seq<TypeElement>): (h: nat)
    ensures forall m | m in members && m.Property? && m.typ.Some? :: Height(m.typ.value) <= h
    decreases members, 0
  {
    if members == [] then 0
    else
      var rest := MembersHeight(members[1..]);
      if members[0].Property? && members[0].typ.Some? then Larger(Height(members[0].typ.value), rest) else rest
  }

  function DeclHeight(d: Decl): nat {
    match d
    case Interface(members, _) => MembersHeight(members)
    case Alias(body) => Height(body)
    case Enum => 0
  }

  ghost function TallestDecl(decls: map<DeclId, Decl>): (h: nat)
    ensures forall id | id in decls :: DeclHeight(decls[id]) <= h
    decreases |decls|
  {
    if decls == map[] then 0
    else
      var id :| id in decls;
      assert |decls - {id}| < |decls| by {
        assert (decls - {id}).Keys == decls.Keys - {id};
      }
      assert forall k | k in decls && k != id :: k in decls - {id};
      Larger(DeclHeight(decls[id]), TallestDecl(decls - {id}))
  }

  /** The revisit keys a walk over paths of at most `n` steps can still add. */
  ghost function Fresh(w: World, n: nat, seen: set<Key>): set<Key> {
    set id, k | id in w.decls && 0 <= k <= n && (id, k) !in seen :: (id, k)
  }

  /** Stack depth that suffices for a site with `left` keys left. */
  ghost function Enough(w: World, site: Site, left: nat): nat {
    (if site.TypeAt? then Height(site.node) + 1 else 1) + Times(left, TallestDecl(w.decls) + 2)
  }

  lemma FreshShrinks(w: World, n: nat, seen: set<Key>, more: set<Key>)
    requires seen <= more
    ensures |Fresh(w, n, more)| <= |Fresh(w, n, seen)|
    ensures forall id, k: nat | id in w.decls && k <= n && (id, k) !in seen && (id, k) in more ::
      |Fresh(w, n, more)| < |Fresh(w, n, seen)|
  {
    var a, b := Fresh(w, n, more), Fresh(w, n, seen);
    assert b == a + (b - a);
    forall id, k: nat | id in w.decls && k <= n && (id, k) !in seen && (id, k) in more ensures |a| < |b| {
      assert (id, k) in b - a;
    }
  }

  function Times(a: nat, b: nat): nat {
    if a == 0 then 0 else b + Times(a - 1, b)
  }

  lemma {:induction false} Scale(a: nat, b: nat, c: nat)
    requires a <= b
    ensures Times(a, c) <= Times(b, c)
    ensures a < b ==> Times(a, c) + c <= Times(b, c)
  {
    if a < b {
      Scale(a, b - 1, c);
    }
  }

  /** The path with the room left behind its site: it never grows. */
  function Extent(w: World, rooms: Rooms, site: Site, steps: seq<PathStep>): nat {
    |steps| + SiteRoom(w, rooms, site)
  }

  lemma MemberBounds(w: World, rooms: Rooms, file: string, members: seq<TypeElement>, name: string)
    ensures var m := SpelledMember(members, name);
      m.Some? && m.value.typ.Some? ==>
        && Room(w, rooms, file, m.value.typ.value) <= MembersRoom(w, rooms, file, members)
        && Height(m.value.typ.value) <= MembersHeight(members)
  {
  }

  /** A next site is lower, or behind the guard; its path has no more room than before. */
  ghost predicate Below(w: World, rooms: Rooms, site: Site, steps: seq<PathStep>, next: Site, rest: seq<PathStep>) {
    && Extent(w, rooms, next, rest) <= Extent(w, rooms, site, steps)
    && match site
       case TypeAt(_, node) => next.TypeAt? ==> Height(next.node) < Height(node)
       case DeclAt(_) => Guarded(w, site) && (next.TypeAt? ==> Height(next.node) <= TallestDecl(w.decls) + 1)
  }

  ghost predicate ShapeBelow(w: World, rooms: Rooms, site: Site, steps: seq<PathStep>, shape: Shape) {
    match shape
    case Go(next, rest) => Below(w, rooms, site, steps, next, rest)
    case SomeOf(sites, rest) => forall i | 0 <= i < |sites| :: Below(w, rooms, site, steps, sites[i], rest)
    case EveryOf(sites, rest) => forall i | 0 <= i < |sites| :: Below(w, rooms, site, steps, sites[i], rest)
    case _ => true
  }

  lemma BasesBelow(w: World, rooms: Rooms, id: DeclId, steps: seq<PathStep>)
    requires id in w.decls && w.decls[id].Interface? && Fits(w, rooms, id)
    ensures ShapeBelow(w, rooms, DeclAt(id), steps, SomeOf(BasesOf(w, id.file, w.decls[id].heritage), steps))
  {
    var bases := BasesOf(w, id.file, w.decls[id].heritage);
    forall i | 0 <= i < |bases| ensures Below(w, rooms, DeclAt(id), steps, bases[i], steps) {
      assert bases[i] in bases;
    }
  }

  lemma OwnMemberBelow(w: World, rooms: Rooms, id: DeclId, m: TypeElement, steps: seq<PathStep>)
    requires id in w.decls && w.decls[id].Interface? && Fits(w, rooms, id) && steps != []
    requires m.Property? && m.typ.Some?
    requires Room(w, rooms, id.file, m.typ.value) <= MembersRoom(w, rooms, id.file, w.decls[id].members)
    requires Height(m.typ.value) <= MembersHeight(w.decls[id].members)
    ensures ShapeBelow(w, rooms, DeclAt(id), steps, MemberShape(id.file, m, steps[1..]))
  {
  }

  lemma InterfaceBelow(w: World, rooms: Rooms, id: DeclId, steps: seq<PathStep>)
    requires id in w.decls && w.decls[id].Interface? && Fits(w, rooms, id) && steps != []
    ensures ShapeBelow(w, rooms, DeclAt(id), steps, WalkShape(w, DeclAt(id), steps))
  {
    if steps[0].Member? {
      var m := SpelledMember(w.decls[id].members, steps[0].name);
      if m.None? {
        BasesBelow(w, rooms, id, steps);
      } else if m.value.typ.Some? {
        MemberBounds(w, rooms, id.file, w.decls[id].members, steps[0].name);
        OwnMemberBelow(w, rooms, id, m.value, steps);
      }
    }
  }

  lemma DeclBelow(w: World, rooms: Rooms, id: DeclId, steps: seq<PathStep>)
    requires WellFounded(w, rooms) && steps != []
    ensures ShapeBelow(w, rooms, DeclAt(id), steps, WalkShape(w, DeclAt(id), steps))
  {
    if id in w.decls {
      assert Fits(w, rooms, id);
      if w.decls[id].Interface? { InterfaceBelow(w, rooms, id, steps); }
    }
  }

  lemma LiteralBelow(w: World, rooms: Rooms, file: string, members: seq<TypeElement>, steps: seq<PathStep>)
    requires steps != []
    ensures ShapeBelow(w, rooms, TypeAt(file, Literal(members)), steps,
                       WalkShape(w, TypeAt(file, Literal(members)), steps))
  {
    if steps[0].Member? { MemberBounds(w, rooms, file, members, steps[0].name); }
  }

  lemma PartsBelow(w: World, rooms: Rooms, file: string, types: seq<TypeNode>, steps: seq<PathStep>)
    requires steps != []
    ensures ShapeBelow(w, rooms, TypeAt(file, Intersection(types)), steps, SomeOf(SitesOf(file, types), steps))
    ensures ShapeBelow(w, rooms, TypeAt(file, Union(types)), steps, EveryOf(SitesOf(file, types), steps))
  {
    assert forall i | 0 <= i < |types| :: types[i] in types;
  }

  lemma ReferenceBelow(w: World, rooms: Rooms, file: string, node: TypeNode, steps: seq<PathStep>)
    requires steps != [] && node.Reference?
    ensures ShapeBelow(w, rooms, TypeAt(file, node), steps, WalkShape(w, TypeAt(file, node), steps))
  {
    assert node.args != [] ==> node.args[0] in node.args;
  }

  lemma TypeBelow(w: World, rooms: Rooms, file: string, node: TypeNode, steps: seq<PathStep>)
    requires steps != []
    ensures ShapeBelow(w, rooms, TypeAt(file, node), steps, WalkShape(w, TypeAt(file, node), steps))
  {
    match node {
      case Literal(members) => LiteralBelow(w, rooms, file, members, steps);
      case Intersection(types) => PartsBelow(w, rooms, file, types, steps);
      case Union(types) => PartsBelow(w, rooms, file, types, steps);
      case Reference(_, _, _) => ReferenceBelow(w, rooms, file, node, steps);
      case _ =>
    }
  }

  /** Where a walk leads there is no more room and no more height than before. */
  lemma WalkBelow(w: World, rooms: Rooms, site: Site, steps: seq<PathStep>)
    requires WellFounded(w, rooms) && steps != []
    ensures ShapeBelow(w, rooms, site, steps, WalkShape(w, site, steps))
  {
    match site
    case DeclAt(id) => DeclBelow(w, rooms, id, steps);
    case TypeAt(file, node) => TypeBelow(w, rooms, file, node, steps);
  }

  /** Depth left for a site with paths of bounded extent. */
  ghost predicate Suffices(w: World, rooms: Rooms, site: Site, steps: seq<PathStep>, seen: set<Key>, depth: nat,
                           n: nat) {
    Extent(w, rooms, site, steps) <= n && depth >= Enough(w, site, |Fresh(w, n, seen)|)
  }

  /** A next site is lower, or the guard has used up a key. */
  lemma NextSuffices(w: World, rooms: Rooms, site: Site, steps: seq<PathStep>, next: Site, rest: seq<PathStep>,
                     seen: set<Key>, depth: nat, n: nat)
    requires Below(w, rooms, site, steps, next, rest) && Suffices(w, rooms, site, steps, seen, depth, n) && depth > 0
    requires !Revisited(w, site, steps, seen)
    ensures Suffices(w, rooms, next, rest, Marked(w, site, steps, seen), depth - 1, n)
  {
    var marked := Marked(w, site, steps, seen);
    FreshShrinks(w, n, seen, marked);
    Scale(|Fresh(w, n, marked)|, |Fresh(w, n, seen)|, TallestDecl(w.decls) + 2);
  }

  lemma SufficesLater(w: World, rooms: Rooms, site: Site, steps: seq<PathStep>, seen: set<Key>, more: set<Key>,
                      depth: nat, n: nat)
    requires Suffices(w, rooms, site, steps, seen, depth, n) && seen <= more
    ensures Suffices(w, rooms, site, steps, more, depth, n)
  {
    FreshShrinks(w, n, seen, more);
    Scale(|Fresh(w, n, more)|, |Fresh(w, n, seen)|, TallestDecl(w.decls) + 2);
  }

  /** The walk only ever adds to the shared set. */
  lemma {:induction false} SeenGrows(w: World, site: Site, steps: seq<PathStep>, seen: set<Key>, depth: nat)
    ensures seen <= Lookup(w, site, steps, seen, depth).seen
    decreases depth, 0, 0
  {
    if depth > 0 && steps != [] && !Revisited(w, site, steps, seen) {
      SeenGrowsFollowing(w, WalkShape(w, site, steps), Marked(w, site, steps, seen), depth - 1);
    }
  }

  lemma {:induction false} SeenGrowsFollowing(w: World, shape: Shape, seen: set<Key>, depth: nat)
    ensures seen <= Follow(w, shape, seen, depth).seen
    decreases depth, 2, 0
  {
    match shape {
      case Go(next, rest) => SeenGrows(w, next, rest, seen, depth);
      case SomeOf(sites, rest) => SeenGrowsEach(w, sites, rest, seen, depth);
      case EveryOf(sites, rest) => SeenGrowsEach(w, sites, rest, seen, depth);
      case _ =>
    }
  }

  lemma {:induction false} SeenGrowsEach(w: World, sites: seq<Site>, steps: seq<PathStep>, seen: set<Key>, depth: nat)
    ensures seen <= LookupEach(w, sites, steps, seen, depth).1
    decreases depth, 1, |sites|
  {
    if sites != [] {
      SeenGrows(w, sites[0], steps, seen, depth);
      SeenGrowsEach(w, sites[1..], steps, Lookup(w, sites[0], steps, seen, depth).seen, depth);
    }
  }

  ghost predicate ShapeSuffices(w: World, rooms: Rooms, shape: Shape, seen: set<Key>, depth: nat, n: nat) {
    match shape
    case Go(next, rest) => Suffices(w, rooms, next, rest, seen, depth, n)
    case SomeOf(sites, rest) => forall i | 0 <= i < |sites| :: Suffices(w, rooms, sites[i], rest, seen, depth, n)
    case EveryOf(sites, rest) => forall i | 0 <= i < |sites| :: Suffices(w, rooms, sites[i], rest, seen, depth, n)
    case _ => true
  }

  lemma NextShapeSuffices(w: World, rooms: Rooms, site: Site, steps: seq<PathStep>, seen: set<Key>, depth: nat, n: nat)
    requires WellFounded(w, rooms) && steps != [] && Suffices(w, rooms, site, steps, seen, depth, n)
    requires !Revisited(w, site, steps, seen)
    ensures depth > 0
    ensures ShapeSuffices(w, rooms, WalkShape(w, site, steps), Marked(w, site, steps, seen), depth - 1, n)
  {
    WalkBelow(w, rooms, site, steps);
    SufficesForOne(w, rooms, site, steps, seen, depth, n);
    forall next, rest | Below(w, rooms, site, steps, next, rest)
      ensures Suffices(w, rooms, next, rest, Marked(w, site, steps, seen), depth - 1, n)
    {
      NextSuffices(w, rooms, site, steps, next, rest, seen, depth, n);
    }
    BelowSuffices(w, rooms, site, steps, WalkShape(w, site, steps), Marked(w, site, steps, seen), depth - 1, n);
  }

  lemma BelowSuffices(w: World, rooms: Rooms, site: Site, steps: seq<PathStep>, shape: Shape,
                      seen: set<Key>, depth: nat, n: nat)
    requires ShapeBelow(w, rooms, site, steps, shape)
    requires forall next, rest | Below(w, rooms, site, steps, next, rest) ::
      Suffices(w, rooms, next, rest, seen, depth, n)
    ensures ShapeSuffices(w, rooms, shape, seen, depth, n)
  {
  }

  lemma SufficesForOne(w: World, rooms: Rooms, site: Site, steps: seq<PathStep>, seen: set<Key>, depth: nat, n: nat)
    requires Suffices(w, rooms, site, steps, seen, depth, n)
    ensures depth > 0
  {
  }

  lemma {:induction false} NoOverflow(w: World, rooms: Rooms, site: Site, steps: seq<PathStep>, seen: set<Key>,
                                      depth: nat, n: nat)
    requires WellFounded(w, rooms) && Suffices(w, rooms, site, steps, seen, depth, n)
    ensures Lookup(w, site, steps, seen, depth).verdict != Overflow
    decreases depth, 0, 0
  {
    SufficesForOne(w, rooms, site, steps, seen, depth, n);
    if steps != [] && !Revisited(w, site, steps, seen) {
      NextShapeSuffices(w, rooms, site, steps, seen, depth, n);
      NoOverflowFollowing(w, rooms, WalkShape(w, site, steps), Marked(w, site, steps, seen), depth - 1, n);
      FollowedAnswers(w, site, steps, seen, depth);
    }
  }

  lemma FollowedAnswers(w: World, site: Site, steps: seq<PathStep>, seen: set<Key>, depth: nat)
    requires depth > 0 && steps != [] && !Revisited(w, site, steps, seen)
    ensures Lookup(w, site, steps, seen, depth)
         == Follow(w, WalkShape(w, site, steps), Marked(w, site, steps, seen), depth - 1)
  {
  }

  lemma {:induction false} NoOverflowFollowing(w: World, rooms: Rooms, shape: Shape, seen: set<Key>, depth: nat, n: nat)
    requires WellFounded(w, rooms) && ShapeSuffices(w, rooms, shape, seen, depth, n)
    ensures Follow(w, shape, seen, depth).verdict != Overflow
    decreases depth, 2, 0
  {
    match shape {
      case Go(next, rest) => NoOverflow(w, rooms, next, rest, seen, depth, n);
      case SomeOf(sites, rest) => NoOverflowEach(w, rooms, sites, rest, seen, depth, n);
      case EveryOf(sites, rest) => NoOverflowEach(w, rooms, sites, rest, seen, depth, n);
      case _ =>
    }
  }

  lemma {:induction false} NoOverflowEach(w: World, rooms: Rooms, sites: seq<Site>, steps: seq<PathStep>,
                                          seen: set<Key>, depth: nat, n: nat)
    requires WellFounded(w, rooms)
    requires forall i | 0 <= i < |sites| :: Suffices(w, rooms, sites[i], steps, seen, depth, n)
    ensures Overflow !in LookupEach(w, sites, steps, seen, depth).0
    decreases depth, 1, |sites|
  {
    if sites != [] {
      NoOverflow(w, rooms, sites[0], steps, seen, depth, n);
      var more := Lookup(w, sites[0], steps, seen, depth).seen;
      SeenGrows(w, sites[0], steps, seen, depth);
      forall i | 1 <= i < |sites| ensures Suffices(w, rooms, sites[i], steps, more, depth, n) {
        SufficesLater(w, rooms, sites[i], steps, seen, more, depth, n);
      }
      NoOverflowEach(w, rooms, sites[1..], steps, more, depth, n);
    }
  }

  /** Where indexed access is well-founded, one stack depth is enough for every `seen` set. */
  lemma WellFoundedTerminates(w: World, rooms: Rooms, site: Site, steps: seq<PathStep>) returns (enough: nat)
    requires WellFounded(w, rooms)
    ensures forall seen, depth: nat | depth >= enough :: Lookup(w, site, steps, seen, depth).verdict != Overflow
  {
    var n := Extent(w, rooms, site, steps);
    enough := Enough(w, site, |Fresh(w, n, {})|);
    forall seen, depth: nat | depth >= enough ensures Lookup(w, site, steps, seen, depth).verdict != Overflow {
      SufficesLater(w, rooms, site, steps, {}, seen, depth, n);
      NoOverflow(w, rooms, site, steps, seen, depth, n);
    }
  }

  // ---------------------------------------------------------------------------
  // Worlds that are well-founded
  // ---------------------------------------------------------------------------

  predicate IndexFreeElement(m: TypeElement) {
    m.Property? && m.typ.Some? ==> IndexFree(m.typ.value)
  }

  /** No indexed access type occurs. */
  predicate IndexFree(node: TypeNode) {
    match node
    case Literal(members) => forall m | m in members :: IndexFreeElement(m)
    case Parenthesized(inner) => IndexFree(inner)
    case Intersection(types) => forall t | t in types :: IndexFree(t)
    case Union(types) => forall t | t in types :: IndexFree(t)
    case ArrayOf(element) => IndexFree(element)
    case Operator(_, operand) => IndexFree(operand)
    case Indexed(_, _) => false
    case Reference(_, _, args) => forall t | t in args :: IndexFree(t)
    case OtherType => true
  }

  predicate IndexFreeDecl(d: Decl) {
    match d
    case Interface(members, _) => forall m | m in members :: IndexFreeElement(m)
    case Alias(body) => IndexFree(body)
    case Enum => true
  }

  predicate IndexFreeWorld(w: World) {
    forall id | id in w.decls :: IndexFreeDecl(w.decls[id])
  }

  lemma {:induction false} IndexFreeHasNoRoom(w: World, file: string, node: TypeNode)
    requires IndexFree(node)
    ensures Room(w, map[], file, node) == 0
    decreases node, 1
  {
    match node {
      case Literal(members) => IndexFreeMembers(w, file, members);
      case Parenthesized(inner) => IndexFreeHasNoRoom(w, file, inner);
      case Intersection(types) => IndexFreeTypes(w, file, types);
      case Union(types) => IndexFreeTypes(w, file, types);
      case ArrayOf(element) => IndexFreeHasNoRoom(w, file, element);
      case Operator(_, operand) => IndexFreeHasNoRoom(w, file, operand);
      case Reference(_, _, args) => if args != [] { IndexFreeHasNoRoom(w, file, args[0]); }
      case _ =>
    }
  }

  lemma {:induction false} IndexFreeTypes(w: World, file: string, types: seq<TypeNode>)
    requires forall t | t in types :: IndexFree(t)
    ensures TypesRoom(w, map[], file, types) == 0
    decreases types, 0
  {
    if types != [] {
      IndexFreeHasNoRoom(w, file, types[0]);
      IndexFreeTypes(w, file, types[1..]);
    }
  }

  lemma {:induction false} IndexFreeMembers(w: World, file: string, members: seq<TypeElement>)
    requires forall m | m in members :: IndexFreeElement(m)
    ensures MembersRoom(w, map[], file, members) == 0
    decreases members, 0
  {
    if members != [] {
      assert IndexFreeElement(members[0]);
      if members[0].Property? && members[0].typ.Some? { IndexFreeHasNoRoom(w, file, members[0].typ.value); }
      IndexFreeMembers(w, file, members[1..]);
    }
  }

  lemma IndexFreeIsWellFounded(w: World)
    requires IndexFreeWorld(w)
    ensures WellFounded(w, map[])
  {
    forall id | id in w.decls ensures Fits(w, map[], id) {
      assert IndexFreeDecl(w.decls[id]);
      match w.decls[id] {
        case Interface(members, heritage) => IndexFreeMembers(w, id.file, members);
        case Alias(body) => IndexFreeHasNoRoom(w, id.file, body);
        case Enum =>
      }
    }
  }

  /** Without indexed access in the declarations the walk ends, whatever type it starts at. */
  lemma WalkTerminates(w: World, site: Site, steps: seq<PathStep>) returns (enough: nat)
    requires IndexFreeWorld(w)
    ensures forall seen, depth: nat | depth >= enough :: Lookup(w, site, steps, seen, depth).verdict != Overflow
  {
    IndexFreeIsWellFounded(w);
    enough := WellFoundedTerminates(w, map[], site, steps);
  }

  /** `interface A { x: A['x'] }` indexes itself and leaves no room for growth. */
  lemma SelfIndexIsWellFounded(file: string, pos: nat)
    ensures var id := DeclId(file, pos);
      var own := Property("x", "x", Some(Indexed(Reference("A", Bare, []), Some("x"))));
      var w := World(map[id := Interface([own], [])], map[(file, "A") := id], {});
      !IndexFreeWorld(w) && WellFounded(w, map[])
  {
    var id := DeclId(file, pos);
    var indexed := Indexed(Reference("A", Bare, []), Some("x"));
    var own := Property("x", "x", Some(indexed));
    var w := World(map[id := Interface([own], [])], map[(file, "A") := id], {});
    assert own in w.decls[id].members && !IndexFreeElement(own);
    assert "A" !in PASSTHROUGH && "A" !in ARRAYS;
    assert Room(w, map[], file, indexed) == 1;
    assert MembersRoom(w, map[], file, [own]) == 1;
  }

  // ---------------------------------------------------------------------------
  // Cycles of aliases
  // ---------------------------------------------------------------------------

  /** Where a walk must go next from a type that takes no step off the path, and what it puts on it. */
  datatype Turn = Turn(site: Site, pushed: seq<PathStep>)

  function TurnOf(w: World, site: Site): Option<Turn> {
    match site
    case DeclAt(id) =>
      if id in w.decls && w.decls[id].Alias? then Some(Turn(TypeAt(id.file, w.decls[id].body), [])) else None
    case TypeAt(file, node) =>
      match node
      case Parenthesized(inner) => Some(Turn(TypeAt(file, inner), []))
      case Operator(_, operand) => Some(Turn(TypeAt(file, operand), []))
      case Indexed(owner, index) =>
        if index.Some? then Some(Turn(TypeAt(file, owner), [Member(index.value)])) else None
      case Reference(head, naming, args) =>
        if head in PASSTHROUGH && args != [] then Some(Turn(TypeAt(file, args[0]), []))
        else if (head in ARRAYS && args != []) || naming.Qualified? || (file, head) !in w.resolves then None
        else Some(Turn(DeclAt(w.resolves[(file, head)]), []))
      case _ => None
  }

  lemma TurnIsWalked(w: World, site: Site, steps: seq<PathStep>)
    requires TurnOf(w, site).Some? && steps != []
    ensures var turn := TurnOf(w, site).value; WalkShape(w, site, steps) == Go(turn.site, turn.pushed + steps)
  {
    var turn := TurnOf(w, site).value;
    assert [] + steps == steps;
  }

  /** The site after `n` turns, and the number of steps they put on the path. */
  function SiteAfter(w: World, site: Site, n: nat): Site
    decreases n
  {
    if n == 0 || TurnOf(w, site).None? then site else SiteAfter(w, TurnOf(w, site).value.site, n - 1)
  }

  function Pushed(w: World, site: Site, n: nat): nat
    decreases n
  {
    if n == 0 || TurnOf(w, site).None? then 0
    else |TurnOf(w, site).value.pushed| + Pushed(w, TurnOf(w, site).value.site, n - 1)
  }

  ghost predicate TurnsOn(w: World, site: Site, n: nat)
    decreases n
  {
    n == 0 || (TurnOf(w, site).Some? && TurnsOn(w, TurnOf(w, site).value.site, n - 1))
  }

  /** After `n` turns, and not before, the walk is back where it was. */
  ghost predicate IsCycle(w: World, site: Site, n: nat) {
    && n > 0 && TurnsOn(w, site, n) && SiteAfter(w, site, n) == site
    && forall k | 0 < k < n :: SiteAfter(w, site, k) != site
  }

  lemma {:induction false} TurnsAdd(w: World, site: Site, a: nat, b: nat)
    requires TurnsOn(w, site, a)
    ensures SiteAfter(w, site, a + b) == SiteAfter(w, SiteAfter(w, site, a), b)
    ensures Pushed(w, site, a + b) == Pushed(w, site, a) + Pushed(w, SiteAfter(w, site, a), b)
    ensures TurnsOn(w, site, a + b) <==> TurnsOn(w, SiteAfter(w, site, a), b)
    decreases a
  {
    if a > 0 { TurnsAdd(w, TurnOf(w, site).value.site, a - 1, b); }
  }

  lemma {:induction false} TurnsOnBefore(w: World, site: Site, m: nat, n: nat)
    requires TurnsOn(w, site, n) && m <= n
    ensures TurnsOn(w, site, m)
    decreases m
  {
    if m > 0 { TurnsOnBefore(w, TurnOf(w, site).value.site, m - 1, n - 1); }
  }

  /** If the second site comes back after `k` turns, so does the first. */
  lemma BothReturn(w: World, site: Site, n: nat, k: nat)
    requires 0 < k < n && TurnsOn(w, site, n) && SiteAfter(w, site, n) == site
    requires SiteAfter(w, site, k + 1) == SiteAfter(w, site, 1)
    ensures SiteAfter(w, site, k) == site
  {
    TurnsOnBefore(w, site, k + 1, n);
    TurnsOnBefore(w, site, 1, n);
    TurnsAdd(w, site, k + 1, n - 1);
    TurnsAdd(w, site, 1, n - 1);
    TurnsAdd(w, site, n, k);
  }

  /** A cycle can be entered at any of its sites. */
  lemma CycleTurns(w: World, site: Site, n: nat)
    requires IsCycle(w, site, n)
    ensures TurnOf(w, site).Some?
    ensures var next := TurnOf(w, site).value.site;
      IsCycle(w, next, n) && Pushed(w, next, n) == Pushed(w, site, n)
  {
    var next := TurnOf(w, site).value.site;
    TurnsOnBefore(w, site, 1, n);
    assert SiteAfter(w, site, 1) == next && Pushed(w, site, 1) == |TurnOf(w, site).value.pushed|;
    TurnsAdd(w, site, 1, n);
    TurnsAdd(w, site, n, 1);
    forall k | 0 < k < n ensures SiteAfter(w, next, k) != next {
      TurnsAdd(w, site, 1, k);
      if SiteAfter(w, next, k) == next { BothReturn(w, site, n, k); }
    }
  }

  /** No site of the cycle was seen with a path as long as it is met with next. */
  ghost predicate Unseen(w: World, site: Site, length: nat, seen: set<Key>, n: nat) {
    forall j, k: nat | 0 <= j < n && SiteAfter(w, site, j).DeclAt? && (SiteAfter(w, site, j).id, k) in seen ::
      k < length + Pushed(w, site, j)
  }

  lemma UnseenTurns(w: World, site: Site, steps: seq<PathStep>, seen: set<Key>, n: nat)
    requires IsCycle(w, site, n) && Pushed(w, site, n) > 0 && Unseen(w, site, |steps|, seen, n)
    ensures !Revisited(w, site, steps, seen)
    ensures var turn := TurnOf(w, site).value;
      Unseen(w, turn.site, |turn.pushed + steps|, Marked(w, site, steps, seen), n)
  {
    assert SiteAfter(w, site, 0) == site && Pushed(w, site, 0) == 0;
    var turn := TurnOf(w, site).value;
    var marked := Marked(w, site, steps, seen);
    forall j, k: nat | 0 <= j < n && SiteAfter(w, turn.site, j).DeclAt? && (SiteAfter(w, turn.site, j).id, k) in marked
      ensures k < |turn.pushed + steps| + Pushed(w, turn.site, j)
    {
      TurnsOnBefore(w, site, 1, n);
      TurnsAdd(w, site, 1, j);
      assert SiteAfter(w, site, 1) == turn.site && Pushed(w, site, 1) == |turn.pushed|;
      if j + 1 == n {
        assert SiteAfter(w, turn.site, j) == site;
      }
    }
  }

  /** A cycle that puts steps on the path exhausts any stack. */
  lemma {:induction false} GrowingCycleDiverges(w: World, site: Site, n: nat, steps: seq<PathStep>, seen: set<Key>,
                                                depth: nat)
    requires IsCycle(w, site, n) && Pushed(w, site, n) > 0 && steps != []
    requires Unseen(w, site, |steps|, seen, n)
    ensures Lookup(w, site, steps, seen, depth).verdict == Overflow
    decreases depth
  {
    if depth > 0 {
      UnseenTurns(w, site, steps, seen, n);
      CycleTurns(w, site, n);
      TurnIsWalked(w, site, steps);
      var turn := TurnOf(w, site).value;
      GrowingCycleDiverges(w, turn.site, n, turn.pushed + steps, Marked(w, site, steps, seen), depth - 1);
    }
  }

  /** On a cycle that puts nothing on the path the guard ends the walk. */
  lemma {:induction false} LevelCycleEnds(w: World, id: DeclId, n: nat, site: Site, steps: seq<PathStep>,
                                          seen: set<Key>, depth: nat)
    requires TurnsOn(w, site, n) && Pushed(w, site, n) == 0 && SiteAfter(w, site, n) == DeclAt(id)
    requires steps != [] && depth > n && Revisited(w, DeclAt(id), steps, seen)
    ensures Lookup(w, site, steps, seen, depth).verdict == Unknown
    decreases n
  {
    if n > 0 && !Revisited(w, site, steps, seen) {
      var turn := TurnOf(w, site).value;
      TurnIsWalked(w, site, steps);
      assert turn.pushed + steps == steps;
      LevelCycleEnds(w, id, n - 1, turn.site, steps, Marked(w, site, steps, seen), depth - 1);
    }
  }

  /** The walk exhausts any stack. */
  ghost predicate Diverges(w: World, site: Site, steps: seq<PathStep>, seen: set<Key>) {
    forall depth: nat :: Lookup(w, site, steps, seen, depth).verdict == Overflow
  }

  lemma EndsAt(w: World, site: Site, steps: seq<PathStep>, seen: set<Key>, depth: nat)
    requires Lookup(w, site, steps, seen, depth).verdict != Overflow
    ensures !Diverges(w, site, steps, seen)
  {
  }

  lemma LevelAliasEnds(w: World, id: DeclId, n: nat, steps: seq<PathStep>, seen: set<Key>, depth: nat)
    requires IsCycle(w, DeclAt(id), n) && Pushed(w, DeclAt(id), n) == 0 && steps != [] && depth > n
    requires forall k | k in seen :: k.1 < |steps|
    ensures Lookup(w, DeclAt(id), steps, seen, depth).verdict == Unknown
  {
    var site := DeclAt(id);
    var turn := TurnOf(w, site).value;
    TurnIsWalked(w, site, steps);
    assert turn.pushed == [] && [] + steps == steps;
    LevelCycleEnds(w, id, n - 1, turn.site, steps, Marked(w, site, steps, seen), depth - 1);
  }

  /** An alias that leads back to itself exhausts any stack exactly when an indexed access lies on
      the way; otherwise the answer is "unknown". */
  lemma AliasCycleDivergesExactly(w: World, id: DeclId, n: nat, steps: seq<PathStep>, seen: set<Key>)
    requires IsCycle(w, DeclAt(id), n) && steps != []
    requires forall k | k in seen :: k.1 < |steps|
    ensures Diverges(w, DeclAt(id), steps, seen) <==> Pushed(w, DeclAt(id), n) > 0
    ensures Pushed(w, DeclAt(id), n) == 0 ==>
      forall depth: nat | depth > n :: Lookup(w, DeclAt(id), steps, seen, depth).verdict == Unknown
  {
    if Pushed(w, DeclAt(id), n) > 0 {
      forall depth: nat ensures Lookup(w, DeclAt(id), steps, seen, depth).verdict == Overflow {
        GrowingCycleDiverges(w, DeclAt(id), n, steps, seen, depth);
      }
    } else {
      forall depth: nat | depth > n ensures Lookup(w, DeclAt(id), steps, seen, depth).verdict == Unknown {
        LevelAliasEnds(w, id, n, steps, seen, depth);
      }
      EndsAt(w, DeclAt(id), steps, seen, n + 1);
    }
  }

  /** Such a cycle leaves no world well-founded. */
  lemma GrowingCycleIsNotWellFounded(w: World, rooms: Rooms, site: Site, n: nat)
    requires IsCycle(w, site, n) && Pushed(w, site, n) > 0
    ensures !WellFounded(w, rooms)
  {
    if WellFounded(w, rooms) {
      var steps := [ArrayHop];
      var enough := WellFoundedTerminates(w, rooms, site, steps);
      GrowingCycleDiverges(w, site, n, steps, {}, enough);
    }
  }

  /** `type A = A['x']`. */
  lemma SelfIndexingAliasDiverges(file: string, pos: nat, steps: seq<PathStep>, depth: nat)
    requires steps != []
    ensures var id := DeclId(file, pos);
      var w := World(map[id := Alias(Indexed(Reference("A", Bare, []), Some("x")))], map[(file, "A") := id], {});
      Lookup(w, DeclAt(id), steps, {}, depth).verdict == Overflow
  {
    var id := DeclId(file, pos);
    var reference := Reference("A", Bare, []);
    var w := World(map[id := Alias(Indexed(reference, Some("x")))], map[(file, "A") := id], {});
    assert "A" !in PASSTHROUGH && "A" !in ARRAYS;
    var indexed := TypeAt(file, Indexed(reference, Some("x")));
    assert TurnOf(w, DeclAt(id)) == Some(Turn(indexed, []));
    assert TurnOf(w, indexed) == Some(Turn(TypeAt(file, reference), [Member("x")]));
    assert TurnOf(w, TypeAt(file, reference)) == Some(Turn(DeclAt(id), []));
    assert SiteAfter(w, TypeAt(file, reference), 1) == DeclAt(id) && Pushed(w, TypeAt(file, reference), 1) == 0;
    assert SiteAfter(w, indexed, 2) == DeclAt(id) && Pushed(w, indexed, 2) == 1
      && SiteAfter(w, indexed, 1) == TypeAt(file, reference);
    assert IsCycle(w, DeclAt(id), 3);
    AliasCycleDivergesExactly(w, id, 3, steps, {});
  }
}
