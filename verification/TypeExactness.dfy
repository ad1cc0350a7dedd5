/**
 * Exactly where the definite answers of the path walk of scripts/gen-config-catalog.ts
 * can be trusted: operators, built-in names, spelled names, one declaration for a name.
 */
module TypeExactness {
  import opened Basics
  import opened TypeLookup

  // ---------------------------------------------------------------------------
  // Exactly where the definite answers fail
  // ---------------------------------------------------------------------------

  ghost predicate SoundFrom(w: World, hidden: Oracle, lenient: bool, site: Site, steps: seq<PathStep>,
                            seen: set<Key>, depth: nat)
  {
    Sound(w, hidden, lenient, site, steps, Lookup(w, site, steps, seen, depth).verdict)
  }

  /** No shared set, stack depth, reading of unions or content of opaque types makes a definite answer wrong. */
  ghost predicate AlwaysSound(w: World, site: Site, steps: seq<PathStep>) {
    forall hidden: Oracle, lenient, seen, depth: nat :: SoundFrom(w, hidden, lenient, site, steps, seen, depth)
  }

  lemma PlainIsAlwaysSound(w: World, site: Site, steps: seq<PathStep>)
    requires PlainWorld(w, All(w)) && PlainSite(w, All(w), site)
    ensures AlwaysSound(w, site, steps)
  {
    forall hidden: Oracle, lenient, seen, depth: nat ensures SoundFrom(w, hidden, lenient, site, steps, seen, depth) {
      LookupIsSound(w, All(w), hidden, lenient, site, steps, seen, depth);
    }
  }

  /** Seeing through an operator is right for every operand exactly when it is `readonly`. */
  lemma OperatorSoundExactly(w: World, file: string, op: TypeOperator)
    requires PlainWorld(w, All(w))
    ensures op.Readonly? <==>
      forall operand, steps | PlainType(w, All(w), file, operand) ::
        AlwaysSound(w, TypeAt(file, Operator(op, operand)), steps)
  {
    if op.Readonly? {
      forall operand, steps | PlainType(w, All(w), file, operand)
        ensures AlwaysSound(w, TypeAt(file, Operator(op, operand)), steps)
      {
        PlainIsAlwaysSound(w, TypeAt(file, Operator(op, operand)), steps);
      }
    } else {
      var operand := A_LITERAL;
      var site, steps := TypeAt(file, Operator(op, operand)), [Member("a")];
      var hidden: Oracle := (s, p) => false;
      LiteralAnswers(w, file);
      assert WalkShape(w, site, steps) == Go(TypeAt(file, operand), steps);
      assert Lookup(w, site, steps, {}, 2).verdict == Found;
      assert !Has(w, hidden, false, site, steps);
      assert !SoundFrom(w, hidden, false, site, steps, {}, 2);
      assert !AlwaysSound(w, site, steps);
    }
  }

  // ---------------------------------------------------------------------------
  // Built-in names
  // ---------------------------------------------------------------------------

  /** Answers through a built-in name are right for every argument and path. */
  ghost predicate BuiltInSound(w: World, file: string, head: string, naming: Naming) {
    forall args: seq<TypeNode>, steps | args != [] && forall t | t in args :: PlainType(w, All(w), file, t) ::
      AlwaysSound(w, TypeAt(file, Reference(head, naming, args)), steps)
  }

  /** The path through a wrapper or an array to a member of its argument. */
  function PathInto(head: string): seq<PathStep> {
    if head in PASSTHROUGH then [Member("a")] else [ArrayHop, Member("a")]
  }

  const EMPTY_LITERAL := Literal([])
  const A_LITERAL := Literal([Property("a", "a", None)])

  lemma LiteralAnswers(w: World, file: string)
    ensures Lookup(w, TypeAt(file, EMPTY_LITERAL), [Member("a")], {}, 1).verdict == Missing
    ensures Lookup(w, TypeAt(file, A_LITERAL), [Member("a")], {}, 1).verdict == Found
    ensures PlainType(w, All(w), file, EMPTY_LITERAL) && PlainType(w, All(w), file, A_LITERAL)
  {
    assert [Member("a")][1..] == [];
    assert SpelledMember(A_LITERAL.members, "a").Some?;
    forall name ensures Legible([], name) && Legible(A_LITERAL.members, name) {
      SpelledByKeyIsLegible([], name);
      SpelledByKeyIsLegible(A_LITERAL.members, name);
    }
  }

  /** How a reference with type arguments is answered, name by name. */
  lemma NamesAreReadAs(w: World, file: string, head: string, naming: Naming, args: seq<TypeNode>, step: PathStep,
                       rest: seq<PathStep>, seen: set<Key>, depth: nat)
    requires args != [] && depth > 0
    ensures var answer := Lookup(w, TypeAt(file, Reference(head, naming, args)), [step] + rest, seen, depth);
      if head == "Partial" || head == "Required" || head == "Readonly" || head == "NonNullable" then
        answer == Lookup(w, TypeAt(file, args[0]), [step] + rest, seen, depth - 1)
      else if head == "Array" || head == "ReadonlyArray" then
        answer == if step.ArrayHop? then Lookup(w, TypeAt(file, args[0]), rest, seen, depth - 1)
                  else Answer(Unknown, seen)
      else if naming == Qualified || (file, head) !in w.resolves then answer == Answer(Unknown, seen)
      else answer == Lookup(w, DeclAt(w.resolves[(file, head)]), [step] + rest, seen, depth - 1)
  {
    assert ([step] + rest)[1..] == rest;
  }

  /** A member without a written type leaves a longer path open. */
  lemma UntypedMemberIsOpen(w: World, file: string, members: seq<TypeElement>, i: nat, rest: seq<PathStep>,
                            seen: set<Key>, depth: nat)
    requires i < |members| && members[i].Property? && members[i].typ.None? && rest != [] && depth > 0
    requires forall j | 0 <= j < i :: !(members[j].Property? && members[j].text == members[i].text)
    ensures Lookup(w, TypeAt(file, Literal(members)), [Member(members[i].text)] + rest, seen, depth).verdict == Unknown
  {
    var name := members[i].text;
    assert members[i] in members;
    var p := FindIsFirst(members, (m: TypeElement) => m.Property? && m.text == name);
    assert p == i;
    assert ([Member(name)] + rest)[1..] == rest;
  }

  /** The walk looks through a built-in name whatever it stands for. */
  lemma BuiltInAnswers(w: World, file: string, head: string, naming: Naming, arg: TypeNode)
    requires head in PASSTHROUGH + ARRAYS
    ensures Lookup(w, TypeAt(file, Reference(head, naming, [arg])), PathInto(head), {}, 2).verdict
         == Lookup(w, TypeAt(file, arg), [Member("a")], {}, 1).verdict
  {
    assert [ArrayHop, Member("a")][1..] == [Member("a")];
    var site := TypeAt(file, Reference(head, naming, [arg]));
    assert WalkShape(w, site, PathInto(head)) == Go(TypeAt(file, arg), [Member("a")]);
  }

  /** Any other name means the same whatever its arguments: empty and nonempty
      arguments get opposite answers, and one of them is wrong. */
  lemma OtherNameIsUnsound(w: World, file: string, head: string, naming: Naming)
    requires head in PASSTHROUGH + ARRAYS && (!naming.Bare? || Binds(w, file, head))
    ensures !BuiltInSound(w, file, head, naming)
  {
    var steps := PathInto(head);
    var none := TypeAt(file, Reference(head, naming, [EMPTY_LITERAL]));
    var some := TypeAt(file, Reference(head, naming, [A_LITERAL]));
    var hidden: Oracle := (s, p) => false;
    LiteralAnswers(w, file);
    BuiltInAnswers(w, file, head, naming, EMPTY_LITERAL);
    BuiltInAnswers(w, file, head, naming, A_LITERAL);
    HasUnfolds(w, hidden, false, none, steps);
    HasUnfolds(w, hidden, false, some, steps);
    assert Has(w, hidden, false, none, steps) == Has(w, hidden, false, some, steps);
    if Has(w, hidden, false, none, steps) {
      assert !SoundFrom(w, hidden, false, none, steps, {}, 2);
      assert !AlwaysSound(w, none, steps);
    } else {
      assert !SoundFrom(w, hidden, false, some, steps, {}, 2);
      assert !AlwaysSound(w, some, steps);
    }
  }

  /** Seeing through `Partial`, `Array` and their like is right for all arguments and paths exactly
      when the name is a bare one that the file does not bind. */
  lemma BuiltInSoundExactly(w: World, file: string, head: string, naming: Naming)
    requires PlainWorld(w, All(w)) && head in PASSTHROUGH + ARRAYS
    ensures naming.Bare? && !Binds(w, file, head) <==> BuiltInSound(w, file, head, naming)
  {
    if naming.Bare? && !Binds(w, file, head) {
      forall args: seq<TypeNode>, steps | args != [] && forall t | t in args :: PlainType(w, All(w), file, t)
        ensures AlwaysSound(w, TypeAt(file, Reference(head, naming, args)), steps)
      {
        PlainIsAlwaysSound(w, TypeAt(file, Reference(head, naming, args)), steps);
      }
    } else {
      OtherNameIsUnsound(w, file, head, naming);
    }
  }

  /** A file's own `Partial` with a member `a`: the walk looks into the argument and misses it. */
  lemma ShadowedWrapperIsMissed(file: string, pos: nat, hidden: Oracle, lenient: bool)
    ensures var id := DeclId(file, pos);
      var w := World(map[id := Alias(A_LITERAL)], map[(file, "Partial") := id], {});
      var site := TypeAt(file, Reference("Partial", Bare, [EMPTY_LITERAL]));
      && PlainWorld(w, All(w)) && Has(w, hidden, lenient, site, [Member("a")])
      && Lookup(w, site, [Member("a")], {}, 2).verdict == Missing
  {
    var id := DeclId(file, pos);
    var w := World(map[id := Alias(A_LITERAL)], map[(file, "Partial") := id], {});
    var site, steps := TypeAt(file, Reference("Partial", Bare, [EMPTY_LITERAL])), [Member("a")];
    LiteralAnswers(w, file);
    BuiltInAnswers(w, file, "Partial", Bare, EMPTY_LITERAL);
    AliasHas(w, id, hidden, lenient);
    HasUnfolds(w, hidden, lenient, site, steps);
  }

  lemma AliasHas(w: World, id: DeclId, hidden: Oracle, lenient: bool)
    requires id in w.decls && w.decls[id] == Alias(A_LITERAL)
    ensures Has(w, hidden, lenient, DeclAt(id), [Member("a")])
  {
    assert [Member("a")][1..] == [] && OwnMember(A_LITERAL.members, "a").Some?;
    HasUnfolds(w, hidden, lenient, TypeAt(id.file, A_LITERAL), [Member("a")]);
    HasUnfolds(w, hidden, lenient, DeclAt(id), [Member("a")]);
  }

  /** A `Partial` that is a class of the file or comes from outside the workspace may hold anything,
      and the walk reports as missing what the argument lacks. */
  lemma UnreachableWrapperIsMissed(file: string, hidden: Oracle, lenient: bool)
    ensures var w := World(map[], map[], {(file, "Partial")});
      var site, steps := TypeAt(file, Reference("Partial", Bare, [EMPTY_LITERAL])), [Member("a")];
      && Lookup(w, site, steps, {}, 2).verdict == Missing
      && (Has(w, hidden, lenient, site, steps) <==> hidden(site, steps))
  {
    var w := World(map[], map[], {(file, "Partial")});
    var site, steps := TypeAt(file, Reference("Partial", Bare, [EMPTY_LITERAL])), [Member("a")];
    LiteralAnswers(w, file);
    BuiltInAnswers(w, file, "Partial", Bare, EMPTY_LITERAL);
    assert PathInto("Partial") == steps;
    HasUnfolds(w, hidden, lenient, site, steps);
  }

  /** A type parameter is answered correctly whatever is declared exactly when the walk, which does
      not know parameters, finds no declaration under its name. */
  lemma ParameterSoundExactly(w: World, file: string, head: string)
    ensures (file, head) !in w.resolves <==>
      forall decls, steps :: AlwaysSound(w.(decls := decls), TypeAt(file, Reference(head, Parameter, [])), steps)
  {
    var site := TypeAt(file, Reference(head, Parameter, []));
    if (file, head) !in w.resolves {
      forall decls, steps ensures AlwaysSound(w.(decls := decls), site, steps) {
        forall hidden: Oracle, lenient, seen, depth: nat
          ensures SoundFrom(w.(decls := decls), hidden, lenient, site, steps, seen, depth)
        {
          assert steps != [] ==> WalkShape(w.(decls := decls), site, steps) == Opaque;
        }
      }
    } else {
      ParameterIsMistaken(w, file, head);
    }
  }

  lemma ParameterIsMistaken(w: World, file: string, head: string)
    requires (file, head) in w.resolves
    ensures var id := w.resolves[(file, head)];
      !AlwaysSound(w.(decls := map[id := Alias(A_LITERAL)]), TypeAt(file, Reference(head, Parameter, [])),
                   [Member("a")])
  {
    var id := w.resolves[(file, head)];
    var w', site, steps := w.(decls := map[id := Alias(A_LITERAL)]), TypeAt(file, Reference(head, Parameter, [])),
      [Member("a")];
    var hidden: Oracle := (s, p) => false;
    HasUnfolds(w', hidden, false, site, steps);
    assert WalkShape(w', site, steps) == Go(DeclAt(id), steps);
    assert WalkShape(w', DeclAt(id), steps) == Go(TypeAt(id.file, A_LITERAL), steps);
    LiteralFound(w', id.file, {(id, 1)});
    assert !SoundFrom(w', hidden, false, site, steps, {}, 3);
  }

  // ---------------------------------------------------------------------------
  // Spelled names
  // ---------------------------------------------------------------------------

  /** The site holds these members and nothing else: a literal, or an interface without bases. */
  predicate Holds(w: World, site: Site, file: string, members: seq<TypeElement>) {
    match site
    case TypeAt(f, node) => f == file && node == Literal(members)
    case DeclAt(id) => id.file == file && id in w.decls && w.decls[id] == Interface(members, [])
  }

  /** One step into the members, as the walk takes it and as it is meant. */
  lemma HolderShapes(w: World, site: Site, file: string, members: seq<TypeElement>, name: string, rest: seq<PathStep>)
    requires Holds(w, site, file, members)
    ensures var steps := [Member(name)] + rest;
      && match SpelledMember(members, name)
         case Some(m) => WalkShape(w, site, steps) == MemberShape(file, m, rest)
         case None => WalkShape(w, site, steps) in {Absent, SomeOf([], steps)}
    ensures var steps := [Member(name)] + rest;
      && match OwnMember(members, name)
         case Some(m) => MeaningShape(w, site, steps) == MemberShape(file, m, rest)
         case None =>
           if HasKeyless(members) then MeaningShape(w, site, steps) == Opaque
           else MeaningShape(w, site, steps) in {Absent, SomeOf([], steps)}
  {
    assert ([Member(name)] + rest)[1..] == rest;
  }

  /** Some property signature is spelled like the name exactly when some member has that key,
      and if none does, no keyless signature could admit it. */
  predicate Visible(members: seq<TypeElement>, name: string) {
    var spelled := exists m | m in members :: m.Property? && m.text == name;
    var owned := exists m | m in members :: KeyOf(m) == Some(name);
    spelled == owned && (spelled || !HasKeyless(members))
  }

  /** A single step is answered correctly exactly when its name is visible; methods, accessors,
      quoted keys and index signatures are what the walk misreads. */
  lemma StepSoundExactly(w: World, site: Site, file: string, members: seq<TypeElement>, name: string)
    requires Holds(w, site, file, members)
    ensures Visible(members, name) <==> AlwaysSound(w, site, [Member(name)])
  {
    var steps := [Member(name)];
    assert steps == [Member(name)] + [];
    HolderShapes(w, site, file, members, name, []);
    forall hidden: Oracle, lenient, seen, depth: nat | Visible(members, name)
      ensures SoundFrom(w, hidden, lenient, site, steps, seen, depth)
    {
      HasUnfolds(w, hidden, lenient, site, steps);
    }
    if !Visible(members, name) {
      var never: Oracle, always: Oracle := (s, p) => false, (s, p) => true;
      var hidden := if SpelledMember(members, name).Some? then never else always;
      HasUnfolds(w, hidden, false, site, steps);
      assert !SoundFrom(w, hidden, false, site, steps, {}, 1);
    }
  }

  lemma LiteralSoundExactly(w: World, file: string, members: seq<TypeElement>, name: string)
    ensures Visible(members, name) <==> AlwaysSound(w, TypeAt(file, Literal(members)), [Member(name)])
  {
    StepSoundExactly(w, TypeAt(file, Literal(members)), file, members, name);
  }


  /** A method is a present member that the walk reports missing, and so is a quoted key. */
  lemma MissingCanBeWrong(w: World, file: string, hidden: Oracle, lenient: bool)
    ensures var site := TypeAt(file, Literal([OtherElement(Some("run"))]));
      && Lookup(w, site, [Member("run")], {}, 1).verdict == Missing
      && Has(w, hidden, lenient, site, [Member("run")])
    ensures var site := TypeAt(file, Literal([Property("'a-b'", "a-b", None)]));
      && Lookup(w, site, [Member("a-b")], {}, 1).verdict == Missing
      && Has(w, hidden, lenient, site, [Member("a-b")])
  {
    var quoted := [Property("'a-b'", "a-b", None)];
    assert quoted[0].text[0] != "a-b"[0];
    assert SpelledMember(quoted, "a-b").None?;
    assert OwnMember(quoted, "a-b") == Some(quoted[0]);
    assert SpelledMember([OtherElement(Some("run"))], "run").None?;
    assert OwnMember([OtherElement(Some("run"))], "run") == Some(OtherElement(Some("run")));
    assert [Member("run")][1..] == [] && [Member("a-b")][1..] == [];
  }

  // ---------------------------------------------------------------------------
  // Longer paths
  // ---------------------------------------------------------------------------

  function IndexWhere<T>(xs: seq<T>, p: T -> bool): (i: nat)
    ensures i <= |xs| && (forall j | 0 <= j < i :: !p(xs[j])) && (i < |xs| ==> p(xs[i]))
    ensures Find(xs, p) == if i < |xs| then Some(xs[i]) else None
  {
    if xs == [] || p(xs[0]) then 0 else IndexWhere(xs[1..], p) + 1
  }

  /** The member the walk takes, and the member that is meant. */
  function SpelledAt(members: seq<TypeElement>, name: string): nat {
    IndexWhere(members, (m: TypeElement) => m.Property? && m.text == name)
  }

  function OwnAt(members: seq<TypeElement>, name: string): nat {
    IndexWhere(members, (m: TypeElement) => KeyOf(m) == Some(name))
  }

  /** Legible members by their places. */
  lemma LegibleByPlace(members: seq<TypeElement>, name: string)
    ensures Legible(members, name) <==>
      SpelledAt(members, name) == OwnAt(members, name) && (OwnAt(members, name) == |members| ==> !HasKeyless(members))
  {
    var s, o := SpelledAt(members, name), OwnAt(members, name);
    if s < |members| && o < |members| && members[s] == members[o] {
      assert KeyOf(members[s]) == Some(name) && members[o].Property? && members[o].text == name;
    }
  }

  /** Whatever the parts' own answers are, they are right. */
  ghost predicate TypeSound(w: World, file: string, typ: Option<TypeNode>, rest: seq<PathStep>) {
    typ.Some? ==> AlwaysSound(w, TypeAt(file, typ.value), rest)
  }

  lemma TakenMemberIsSound(w: World, hidden: Oracle, lenient: bool, site: Site, file: string, m: TypeElement,
                           name: string, rest: seq<PathStep>, seen: set<Key>, depth: nat)
    requires m.Property? && TypeSound(w, file, m.typ, rest)
    requires WalkShape(w, site, [Member(name)] + rest) == MemberShape(file, m, rest)
    requires MeaningShape(w, site, [Member(name)] + rest) == MemberShape(file, m, rest)
    ensures SoundFrom(w, hidden, lenient, site, [Member(name)] + rest, seen, depth)
  {
    var steps := [Member(name)] + rest;
    HasUnfolds(w, hidden, lenient, site, steps);
    if depth > 0 && !Revisited(w, site, steps, seen) && rest != [] && m.typ.Some? {
      assert SoundFrom(w, hidden, lenient, TypeAt(file, m.typ.value), rest, Marked(w, site, steps, seen), depth - 1);
    }
  }

  lemma {:induction false} PartsAlwaysSound(w: World, hidden: Oracle, lenient: bool, sites: seq<Site>,
                                            steps: seq<PathStep>, seen: set<Key>, depth: nat)
    requires forall i | 0 <= i < |sites| :: AlwaysSound(w, sites[i], steps)
    ensures EachSound(w, hidden, lenient, sites, steps, LookupEach(w, sites, steps, seen, depth).0)
    decreases |sites|
  {
    if sites != [] {
      assert SoundFrom(w, hidden, lenient, sites[0], steps, seen, depth);
      PartsAlwaysSound(w, hidden, lenient, sites[1..], steps, Lookup(w, sites[0], steps, seen, depth).seen, depth);
    }
  }

  /** Bases that are answered correctly are combined correctly. */
  lemma BasesAreSound(w: World, hidden: Oracle, lenient: bool, site: Site, bases: seq<Site>, steps: seq<PathStep>,
                      seen: set<Key>, depth: nat)
    requires steps != [] && forall i | 0 <= i < |bases| :: AlwaysSound(w, bases[i], steps)
    requires WalkShape(w, site, steps) == MeaningShape(w, site, steps) == SomeOf(bases, steps)
    ensures SoundFrom(w, hidden, lenient, site, steps, seen, depth)
  {
    HasUnfolds(w, hidden, lenient, site, steps);
    if depth > 0 && !Revisited(w, site, steps, seen) {
      var marked := Marked(w, site, steps, seen);
      PartsAlwaysSound(w, hidden, lenient, bases, steps, marked, depth - 1);
      PartsAreSound(w, hidden, lenient, bases, steps, LookupEach(w, bases, steps, marked, depth - 1).0);
    }
  }

  /** A path into a literal is answered correctly when the walk takes the member that is meant
      and that member's type is answered correctly. */
  lemma LiteralPathSound(w: World, file: string, members: seq<TypeElement>, name: string, rest: seq<PathStep>)
    requires Legible(members, name)
    requires var s := SpelledAt(members, name); s < |members| ==> TypeSound(w, file, members[s].typ, rest)
    ensures AlwaysSound(w, TypeAt(file, Literal(members)), [Member(name)] + rest)
  {
    var site, steps, s := TypeAt(file, Literal(members)), [Member(name)] + rest, SpelledAt(members, name);
    HolderShapes(w, site, file, members, name, rest);
    forall hidden: Oracle, lenient, seen, depth: nat ensures SoundFrom(w, hidden, lenient, site, steps, seen, depth) {
      if s < |members| {
        TakenMemberIsSound(w, hidden, lenient, site, file, members[s], name, rest, seen, depth);
      } else {
        HasUnfolds(w, hidden, lenient, site, steps);
      }
    }
  }

  /** The same for an interface, where a name that is not its own is left to the bases. */
  lemma InterfacePathSound(w: World, id: DeclId, members: seq<TypeElement>, heritage: seq<Heritage>, name: string,
                           rest: seq<PathStep>)
    requires id in w.decls && w.decls[id] == Interface(members, heritage) && Legible(members, name)
    requires var s := SpelledAt(members, name);
      if s < |members| then TypeSound(w, id.file, members[s].typ, rest)
      else forall base | base in BasesOf(w, id.file, heritage) :: AlwaysSound(w, base, [Member(name)] + rest)
    ensures AlwaysSound(w, DeclAt(id), [Member(name)] + rest)
  {
    var site, steps, s := DeclAt(id), [Member(name)] + rest, SpelledAt(members, name);
    var bases := BasesOf(w, id.file, heritage);
    assert steps[1..] == rest;
    forall hidden: Oracle, lenient, seen, depth: nat ensures SoundFrom(w, hidden, lenient, site, steps, seen, depth) {
      if s < |members| {
        TakenMemberIsSound(w, hidden, lenient, site, id.file, members[s], name, rest, seen, depth);
      } else {
        assert forall i | 0 <= i < |bases| :: bases[i] in bases;
        BasesAreSound(w, hidden, lenient, site, bases, steps, seen, depth);
      }
    }
  }

  /** The same names and keys with other types. */
  function Retyped(members: seq<TypeElement>, types: seq<Option<TypeNode>>): (retyped: seq<TypeElement>)
    requires |types| == |members|
    ensures |retyped| == |members|
  {
    seq(|members|, i requires 0 <= i < |members| =>
      if members[i].Property? then members[i].(typ := types[i]) else members[i])
  }

  /** Which members are found depends on their names and keys alone. */
  lemma IndexAgrees(xs: seq<TypeElement>, ys: seq<TypeElement>, p: TypeElement -> bool)
    requires |xs| == |ys| && forall i | 0 <= i < |xs| :: p(xs[i]) == p(ys[i])
    ensures IndexWhere(xs, p) == IndexWhere(ys, p)
  {
  }

  lemma RetypedKeyless(members: seq<TypeElement>, types: seq<Option<TypeNode>>)
    requires |types| == |members|
    ensures HasKeyless(Retyped(members, types)) <==> HasKeyless(members)
  {
    var retyped := Retyped(members, types);
    if m :| m in members && KeyOf(m).None? {
      var i: nat :| i < |members| && members[i] == m;
      assert retyped[i] in retyped;
    }
    if m :| m in retyped && KeyOf(m).None? {
      var i: nat :| i < |members| && retyped[i] == m;
      assert members[i] in members;
    }
  }

  lemma RetypedKeepsNames(members: seq<TypeElement>, types: seq<Option<TypeNode>>, name: string)
    requires |types| == |members|
    ensures var retyped := Retyped(members, types);
      && SpelledAt(retyped, name) == SpelledAt(members, name) && OwnAt(retyped, name) == OwnAt(members, name)
      && (HasKeyless(retyped) <==> HasKeyless(members))
  {
    IndexAgrees(members, Retyped(members, types), (m: TypeElement) => m.Property? && m.text == name);
    IndexAgrees(members, Retyped(members, types), (m: TypeElement) => KeyOf(m) == Some(name));
    RetypedKeyless(members, types);
  }

  lemma RetypedIsLegible(members: seq<TypeElement>, types: seq<Option<TypeNode>>, name: string)
    requires |types| == |members| && Legible(members, name)
    ensures Legible(Retyped(members, types), name)
  {
    LegibleByPlace(members, name);
    RetypedKeepsNames(members, types, name);
    LegibleByPlace(Retyped(members, types), name);
  }

  /** Types that tell the walk's choice from the one that is meant. */
  function Telling(members: seq<TypeElement>, name: string): (types: seq<Option<TypeNode>>)
    ensures |types| == |members|
  {
    var s := SpelledAt(members, name);
    seq(|members|, i => Some(if i == s || s == |members| then A_LITERAL else EMPTY_LITERAL))
  }

  /** The walk finds a member in place of another one, or of none. */
  lemma TakenWronglyIsUnsound(w: World, site: Site, file: string, members: seq<TypeElement>, name: string)
    requires Holds(w, site, file, members)
    requires SpelledMember(members, name).Some? && SpelledMember(members, name).value.typ == Some(A_LITERAL)
    requires OwnMember(members, name).Some? && OwnMember(members, name).value.Property? ==>
      OwnMember(members, name).value.typ == Some(EMPTY_LITERAL)
    ensures !AlwaysSound(w, site, [Member(name)] + [Member("a")])
  {
    var rest := [Member("a")];
    var steps := [Member(name)] + rest;
    var hidden: Oracle := (p, q) => false;
    HolderShapes(w, site, file, members, name, rest);
    HasUnfolds(w, hidden, false, site, steps);
    LiteralMeanings(w, file, hidden);
    LiteralFound(w, file, Marked(w, site, steps, {}));
    assert WalkShape(w, site, steps) == Go(TypeAt(file, A_LITERAL), rest);
    assert !SoundFrom(w, hidden, false, site, steps, {}, 2);
  }

  /** The walk finds no member where there is one, or where a keyless signature may admit it. */
  lemma MissedWronglyIsUnsound(w: World, site: Site, file: string, members: seq<TypeElement>, name: string)
    requires Holds(w, site, file, members)
    requires SpelledMember(members, name).None? && (OwnMember(members, name).Some? || HasKeyless(members))
    requires OwnMember(members, name).Some? && OwnMember(members, name).value.Property? ==>
      OwnMember(members, name).value.typ == Some(A_LITERAL)
    ensures !AlwaysSound(w, site, [Member(name)] + [Member("a")])
  {
    var rest := [Member("a")];
    var steps := [Member(name)] + rest;
    var hidden: Oracle := (p, q) => true;
    HolderShapes(w, site, file, members, name, rest);
    HasUnfolds(w, hidden, false, site, steps);
    LiteralMeanings(w, file, hidden);
    assert Lookup(w, site, steps, {}, 2).verdict == Missing;
    assert !SoundFrom(w, hidden, false, site, steps, {}, 2);
  }

  lemma LiteralFound(w: World, file: string, seen: set<Key>)
    ensures Lookup(w, TypeAt(file, A_LITERAL), [Member("a")], seen, 1).verdict == Found
  {
    assert [Member("a")][1..] == [];
    assert SpelledMember(A_LITERAL.members, "a").Some?;
  }

  lemma WrongChoiceIsUnsound(w: World, site: Site, file: string, members: seq<TypeElement>, name: string)
    requires Holds(w, site, file, Retyped(members, Telling(members, name))) && !Legible(members, name)
    ensures !AlwaysSound(w, site, [Member(name)] + [Member("a")])
  {
    var retyped := Retyped(members, Telling(members, name));
    RetypedKeepsNames(members, Telling(members, name), name);
    if SpelledAt(members, name) < |members| {
      TakenWronglyIsUnsound(w, site, file, retyped, name);
    } else {
      MissedWronglyIsUnsound(w, site, file, retyped, name);
    }
  }

  lemma LiteralMeanings(w: World, file: string, hidden: Oracle)
    ensures Has(w, hidden, false, TypeAt(file, A_LITERAL), [Member("a")])
    ensures !Has(w, hidden, false, TypeAt(file, EMPTY_LITERAL), [Member("a")])
  {
    assert [Member("a")][1..] == [];
    assert OwnMember(A_LITERAL.members, "a").Some?;
    HasUnfolds(w, hidden, false, TypeAt(file, A_LITERAL), [Member("a")]);
    HasUnfolds(w, hidden, false, TypeAt(file, EMPTY_LITERAL), [Member("a")]);
  }

  lemma TellingTypesAreSound(w: World, file: string)
    ensures AlwaysSound(w, TypeAt(file, EMPTY_LITERAL), [Member("a")])
    ensures AlwaysSound(w, TypeAt(file, A_LITERAL), [Member("a")])
  {
    LiteralSoundExactly(w, file, EMPTY_LITERAL.members, "a");
    var m := A_LITERAL.members[0];
    assert m in A_LITERAL.members && KeyOf(m) == Some("a");
    LiteralSoundExactly(w, file, A_LITERAL.members, "a");
  }

  ghost predicate TypesSound(w: World, file: string, types: seq<Option<TypeNode>>, rest: seq<PathStep>) {
    forall t | t in types :: TypeSound(w, file, t, rest)
  }

  lemma RetypedTypeIsSound(w: World, file: string, members: seq<TypeElement>, types: seq<Option<TypeNode>>,
                           name: string, rest: seq<PathStep>)
    requires |types| == |members| && TypesSound(w, file, types, rest)
    ensures var s := SpelledAt(Retyped(members, types), name);
      s < |members| ==> TypeSound(w, file, Retyped(members, types)[s].typ, rest)
  {
    var s := SpelledAt(Retyped(members, types), name);
    if s < |members| {
      assert types[s] in types;
    }
  }

  /** Paths into a literal are answered correctly for all types whose own answers are correct
      exactly when the walk takes the member that is meant. */
  lemma LiteralPathSoundExactly(w: World, file: string, members: seq<TypeElement>, name: string)
    ensures Legible(members, name) <==>
      forall types, rest | |types| == |members| && TypesSound(w, file, types, rest) ::
        AlwaysSound(w, TypeAt(file, Literal(Retyped(members, types))), [Member(name)] + rest)
  {
    if Legible(members, name) {
      forall types, rest | |types| == |members| && TypesSound(w, file, types, rest)
        ensures AlwaysSound(w, TypeAt(file, Literal(Retyped(members, types))), [Member(name)] + rest)
      {
        RetypedIsLegible(members, types, name);
        RetypedTypeIsSound(w, file, members, types, name, rest);
        LiteralPathSound(w, file, Retyped(members, types), name, rest);
      }
    } else {
      var types, rest := Telling(members, name), [Member("a")];
      TellingTypesAreSound(w, file);
      assert TypesSound(w, file, types, rest);
      WrongChoiceIsUnsound(w, TypeAt(file, Literal(Retyped(members, types))), file, members, name);
    }
  }

  /** The world with this interface in place of a declaration. */
  function WithInterface(w: World, id: DeclId, members: seq<TypeElement>, heritage: seq<Heritage>): World {
    w.(decls := w.decls[id := Interface(members, heritage)])
  }

  ghost predicate BasesSound(w: World, file: string, heritage: seq<Heritage>, steps: seq<PathStep>) {
    forall base | base in BasesOf(w, file, heritage) :: AlwaysSound(w, base, steps)
  }

  /** A visible name is answered correctly by an interface whose bases are. */
  lemma InterfaceStepSound(w: World, id: DeclId, members: seq<TypeElement>, heritage: seq<Heritage>, name: string)
    requires id in w.decls && w.decls[id] == Interface(members, heritage) && Visible(members, name)
    requires BasesSound(w, id.file, heritage, [Member(name)])
    ensures AlwaysSound(w, DeclAt(id), [Member(name)])
  {
    var site, steps, bases := DeclAt(id), [Member(name)], BasesOf(w, id.file, heritage);
    assert steps[1..] == [];
    forall hidden: Oracle, lenient, seen, depth: nat ensures SoundFrom(w, hidden, lenient, site, steps, seen, depth) {
      HasUnfolds(w, hidden, lenient, site, steps);
      if SpelledMember(members, name).None? {
        assert forall i | 0 <= i < |bases| :: bases[i] in bases;
        BasesAreSound(w, hidden, lenient, site, bases, steps, seen, depth);
      }
    }
  }

  /** An interface answers a single step correctly, for all bases that do, exactly when the name is
      visible among its own members. */
  lemma InterfaceSoundExactly(w: World, id: DeclId, members: seq<TypeElement>, name: string)
    ensures Visible(members, name) <==>
      forall heritage | BasesSound(WithInterface(w, id, members, heritage), id.file, heritage, [Member(name)]) ::
        AlwaysSound(WithInterface(w, id, members, heritage), DeclAt(id), [Member(name)])
  {
    if Visible(members, name) {
      forall heritage | BasesSound(WithInterface(w, id, members, heritage), id.file, heritage, [Member(name)])
        ensures AlwaysSound(WithInterface(w, id, members, heritage), DeclAt(id), [Member(name)])
      {
        InterfaceStepSound(WithInterface(w, id, members, heritage), id, members, heritage, name);
      }
    } else {
      var w' := WithInterface(w, id, members, []);
      assert BasesSound(w', id.file, [], [Member(name)]);
      StepSoundExactly(w', DeclAt(id), id.file, members, name);
    }
  }

  /** The parts of an interface are answered correctly: its members' types and its bases. */
  ghost predicate InterfaceParts(w: World, id: DeclId, types: seq<Option<TypeNode>>, heritage: seq<Heritage>,
                                 name: string, rest: seq<PathStep>)
  {
    TypesSound(w, id.file, types, rest) && BasesSound(w, id.file, heritage, [Member(name)] + rest)
  }

  /** The same for longer paths, for all types and bases; both may refer to the interface itself. */
  lemma InterfacePathSoundExactly(w: World, id: DeclId, members: seq<TypeElement>, name: string)
    ensures Legible(members, name) <==>
      forall types, heritage, rest | |types| == |members|
        && InterfaceParts(WithInterface(w, id, Retyped(members, types), heritage), id, types, heritage, name, rest) ::
        AlwaysSound(WithInterface(w, id, Retyped(members, types), heritage), DeclAt(id), [Member(name)] + rest)
  {
    if Legible(members, name) {
      forall types, heritage, rest | |types| == |members|
        && InterfaceParts(WithInterface(w, id, Retyped(members, types), heritage), id, types, heritage, name, rest)
        ensures AlwaysSound(WithInterface(w, id, Retyped(members, types), heritage), DeclAt(id), [Member(name)] + rest)
      {
        var w' := WithInterface(w, id, Retyped(members, types), heritage);
        RetypedIsLegible(members, types, name);
        RetypedTypeIsSound(w', id.file, members, types, name, rest);
        InterfacePathSound(w', id, Retyped(members, types), heritage, name, rest);
      }
    } else {
      var types, rest := Telling(members, name), [Member("a")];
      var w' := WithInterface(w, id, Retyped(members, types), []);
      TellingTypesAreSound(w', id.file);
      assert InterfaceParts(w', id, types, [], name, rest);
      WrongChoiceIsUnsound(w', DeclAt(id), id.file, members, name);
    }
  }

  // ---------------------------------------------------------------------------
  // One declaration for a name
  // ---------------------------------------------------------------------------

  /** Interfaces of one name are merged: the path is present in any of them. */
  ghost predicate HasMerged(w: World, hidden: Oracle, lenient: bool, decls: set<DeclId>, steps: seq<PathStep>) {
    exists id :: id in decls && Has(w, hidden, lenient, DeclAt(id), steps)
  }

  /** An interface of spelled properties, without bases. */
  predicate IsSimple(w: World, id: DeclId) {
    && id in w.decls && w.decls[id].Interface? && w.decls[id].heritage == []
    && forall m | m in w.decls[id].members :: m.Property? && m.text == m.key
  }

  predicate HasKey(w: World, id: DeclId, name: string)
    requires IsSimple(w, id)
  {
    exists m | m in w.decls[id].members :: m.key == name
  }

  lemma SimpleAnswers(w: World, id: DeclId, name: string, hidden: Oracle, lenient: bool)
    requires IsSimple(w, id)
    ensures Lookup(w, DeclAt(id), [Member(name)], {}, 1).verdict == if HasKey(w, id, name) then Found else Missing
    ensures Has(w, hidden, lenient, DeclAt(id), [Member(name)]) <==> HasKey(w, id, name)
  {
    assert [Member(name)][1..] == [];
    HasUnfolds(w, hidden, lenient, DeclAt(id), [Member(name)]);
  }

  /** The walk asks the first declaration of a name. Its answers are right for the merged type, for
      every name, exactly when no other declaration adds a key. */
  lemma MergedSoundExactly(w: World, first: DeclId, decls: set<DeclId>, hidden: Oracle, lenient: bool)
    requires first in decls && forall id | id in decls :: IsSimple(w, id)
    ensures (forall name :: Lookup(w, DeclAt(first), [Member(name)], {}, 1).verdict
                              == if HasMerged(w, hidden, lenient, decls, [Member(name)]) then Found else Missing)
      <==> forall id, name | id in decls && HasKey(w, id, name) :: HasKey(w, first, name)
  {
    forall name
      ensures Lookup(w, DeclAt(first), [Member(name)], {}, 1).verdict ==
        if HasKey(w, first, name) then Found else Missing
      ensures HasMerged(w, hidden, lenient, decls, [Member(name)]) <==> exists id :: id in decls && HasKey(w, id, name)
    {
      forall id | id in decls
        ensures Has(w, hidden, lenient, DeclAt(id), [Member(name)]) <==> HasKey(w, id, name)
      {
        SimpleAnswers(w, id, name, hidden, lenient);
      }
      SimpleAnswers(w, first, name, hidden, lenient);
    }
  }

  /** A member of a second interface of the same name is reported missing. */
  lemma MergedMemberIsMissed(file: string, hidden: Oracle, lenient: bool)
    ensures var first, second := DeclId(file, 0), DeclId(file, 1);
      var w := World(map[first := Interface([], []), second := Interface(A_LITERAL.members, [])],
                     map[(file, "A") := first], {});
      && Lookup(w, TypeAt(file, Reference("A", Bare, [])), [Member("a")], {}, 2).verdict == Missing
      && HasMerged(w, hidden, lenient, {first, second}, [Member("a")])
  {
    var first, second := DeclId(file, 0), DeclId(file, 1);
    var w := World(map[first := Interface([], []), second := Interface(A_LITERAL.members, [])],
                   map[(file, "A") := first], {});
    var steps := [Member("a")];
    assert steps[1..] == [] && "A" !in PASSTHROUGH && "A" !in ARRAYS;
    assert OwnMember(A_LITERAL.members, "a").Some?;
    HasUnfolds(w, hidden, lenient, DeclAt(second), steps);
    assert Has(w, hidden, lenient, DeclAt(second), steps);
  }
}
