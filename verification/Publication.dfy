/**
 * `RegistryPublication.publish` of scripts/publish-npm-baseline.ts: a resumable
 * sequence of npm commands against a registry that keeps state. The protocol is a
 * deterministic machine with one step per command; an interruption is a stop after
 * any number of steps, and a rerun starts the machine afresh on what is left.
 */
module Publication {
  import opened Basics

  datatype PackageName = PackageName(text: string)
  datatype Version = Version(text: string)
  datatype Tag = Tag(text: string)
  datatype Integrity = Integrity(text: string)

  datatype Release = Release(name: PackageName, version: Version)
  datatype TagKey = TagKey(name: PackageName, tag: Tag)

  /** What the registry keeps. */
  datatype Remote = Remote(versions: map<Release, Integrity>, tags: map<TagKey, Version>)

  datatype Package = Package(name: PackageName, integrity: Integrity)

  datatype Bundle = Bundle(packages: seq<Package>, version: Version, distTag: Tag)

  const RELEASE_ENTRY_PACKAGE := PackageName("@deepseek-ai/dsh")
  const LATEST_DIST_TAG := Tag("latest")

  /** Loading a manifest rejects repeated package names. */
  ghost predicate ValidBundle(b: Bundle) {
    b.packages != [] && forall i, j | 0 <= i < j < |b.packages| :: b.packages[i].name != b.packages[j].name
  }

  /** Registry tags point at published versions. */
  ghost predicate ValidRemote(r: Remote) {
    forall k | k in r.tags :: Release(k.name, r.tags[k]) in r.versions
  }

  function ReleaseOf(b: Bundle, i: nat): Release
    requires i < |b.packages|
  {
    Release(b.packages[i].name, b.version)
  }

  function TagOf(b: Bundle, i: nat): TagKey
    requires i < |b.packages|
  {
    TagKey(b.packages[i].name, b.distTag)
  }

  const LATEST_KEY := TagKey(RELEASE_ENTRY_PACKAGE, LATEST_DIST_TAG)

  // ---------------------------------------------------------------------------
  // The protocol
  // ---------------------------------------------------------------------------

  datatype Outcome =
    | Published
    | IntegrityConflict(name: PackageName)
    | CommandFailed
    | VerificationFailed

  /** The command to be issued next. */
  datatype Pc =
    | View(i: nat)
    | Upload(i: nat)
    | ReadTag(i: nat)
    | AddTag(i: nat)
    | ReadLatest
    | AddLatest
    | Verify(i: nat)
    | VerifyLatest
    | Finished(outcome: Outcome)

  datatype Machine = Machine(pc: Pc, remote: Remote)

  predicate PackageExists(r: Remote, name: PackageName) {
    exists k | k in r.versions :: k.name == name
  }

  function TagLookup(r: Remote, key: TagKey): Option<Version> {
    if key in r.tags then Some(r.tags[key]) else None
  }

  /** The loop head: the next package, or the `latest` tag once the list is exhausted. */
  function Next(b: Bundle, i: nat): Pc {
    if i < |b.packages| then View(i) else ReadLatest
  }

  function NextVerify(b: Bundle, i: nat): Pc {
    if i < |b.packages| then Verify(i) else VerifyLatest
  }

  function Start(b: Bundle, r: Remote): Machine {
    Machine(Next(b, 0), r)
  }

  predicate InRange(b: Bundle, pc: Pc) {
    pc.View? || pc.Upload? || pc.ReadTag? || pc.AddTag? || pc.Verify? ==> pc.i < |b.packages|
  }

  /** One npm command and the decision taken on its answer. */
  function Step(b: Bundle, m: Machine): Machine
    requires InRange(b, m.pc)
  {
    var r := m.remote;
    match m.pc
    case View(i) =>
      if ReleaseOf(b, i) !in r.versions then m.(pc := Upload(i))
      else if r.versions[ReleaseOf(b, i)] != b.packages[i].integrity then
        m.(pc := Finished(IntegrityConflict(b.packages[i].name)))
      else m.(pc := ReadTag(i))
    case Upload(i) =>
      // The registry refuses to publish over an existing version.
      if ReleaseOf(b, i) in r.versions then m.(pc := Finished(CommandFailed))
      else Machine(ReadTag(i), Remote(r.versions[ReleaseOf(b, i) := b.packages[i].integrity],
                                      r.tags[TagOf(b, i) := b.version]))
    case ReadTag(i) =>
      if !PackageExists(r, b.packages[i].name) then m.(pc := Finished(CommandFailed))
      else if TagLookup(r, TagOf(b, i)) == Some(b.version) then m.(pc := Next(b, i + 1))
      else m.(pc := AddTag(i))
    case AddTag(i) =>
      if ReleaseOf(b, i) !in r.versions then m.(pc := Finished(CommandFailed))
      else Machine(Next(b, i + 1), r.(tags := r.tags[TagOf(b, i) := b.version]))
    case ReadLatest =>
      if !PackageExists(r, RELEASE_ENTRY_PACKAGE) then m.(pc := Finished(CommandFailed))
      else if TagLookup(r, LATEST_KEY) == Some(b.version) then m.(pc := NextVerify(b, 0))
      else m.(pc := AddLatest)
    case AddLatest =>
      if Release(RELEASE_ENTRY_PACKAGE, b.version) !in r.versions then m.(pc := Finished(CommandFailed))
      else Machine(NextVerify(b, 0), r.(tags := r.tags[LATEST_KEY := b.version]))
    case Verify(i) =>
      if ReleaseOf(b, i) !in r.versions || r.versions[ReleaseOf(b, i)] != b.packages[i].integrity
         || TagLookup(r, TagOf(b, i)) != Some(b.version)
      then m.(pc := Finished(VerificationFailed))
      else m.(pc := NextVerify(b, i + 1))
    case VerifyLatest =>
      m.(pc := Finished(if TagLookup(r, LATEST_KEY) == Some(b.version) then Published else VerificationFailed))
    case Finished(_) => m
  }

  /** The machine after `k` commands; stopping there is an interruption. */
  function Run(b: Bundle, m: Machine, k: nat): (r: Machine)
    requires InRange(b, m.pc)
    ensures InRange(b, r.pc)
  {
    if k == 0 then m else Step(b, Run(b, m, k - 1))
  }

  /** More commands than any run issues. */
  function Budget(b: Bundle): nat {
    5 * |b.packages| + 3
  }

  // ---------------------------------------------------------------------------
  // The state every run is in, in closed form
  // ---------------------------------------------------------------------------

  /** The versions and the tags that publishing the first `i` packages puts in place. */
  function VersionsOf(b: Bundle, i: nat): map<Release, Integrity>
    requires i <= |b.packages|
  {
    if i == 0 then map[] else VersionsOf(b, i - 1)[ReleaseOf(b, i - 1) := b.packages[i - 1].integrity]
  }

  function TagsOf(b: Bundle, i: nat): map<TagKey, Version>
    requires i <= |b.packages|
  {
    if i == 0 then map[] else TagsOf(b, i - 1)[TagOf(b, i - 1) := b.version]
  }

  lemma {:induction false} VersionsPut(b: Bundle, i: nat)
    requires ValidBundle(b) && i <= |b.packages|
    ensures forall j | 0 <= j < |b.packages| ::
      && (ReleaseOf(b, j) in VersionsOf(b, i) <==> j < i)
      && (j < i ==> VersionsOf(b, i)[ReleaseOf(b, j)] == b.packages[j].integrity)
    ensures forall k | k in VersionsOf(b, i) :: exists j :: 0 <= j < i && ReleaseOf(b, j) == k
  {
    if i > 0 { VersionsPut(b, i - 1); }
  }

  lemma {:induction false} TagsPut(b: Bundle, i: nat)
    requires ValidBundle(b) && i <= |b.packages|
    ensures forall j | 0 <= j < |b.packages| :: TagOf(b, j) in TagsOf(b, i) <==> j < i
    ensures forall k | k in TagsOf(b, i) :: TagsOf(b, i)[k] == b.version && exists j :: 0 <= j < i && TagOf(b, j) == k
  {
    if i > 0 { TagsPut(b, i - 1); }
  }

  /** The registry `r0` with `v` versions and `t` tags of the bundle put in place. */
  function StateAt(b: Bundle, r0: Remote, v: nat, t: nat): Remote
    requires v <= |b.packages| && t <= |b.packages|
  {
    Remote(r0.versions + VersionsOf(b, v), r0.tags + TagsOf(b, t))
  }

  function WithLatest(b: Bundle, r: Remote): Remote {
    r.(tags := r.tags[LATEST_KEY := b.version])
  }

  predicate Conflicting(b: Bundle, r: Remote, i: nat)
    requires i < |b.packages|
  {
    ReleaseOf(b, i) in r.versions && r.versions[ReleaseOf(b, i)] != b.packages[i].integrity
  }

  /** The first package already published with another integrity, or the package count. */
  function FirstConflict(b: Bundle, r: Remote, from: nat := 0): (c: nat)
    requires from <= |b.packages|
    ensures from <= c <= |b.packages|
    ensures forall j | from <= j < c :: !Conflicting(b, r, j)
    ensures c < |b.packages| ==> Conflicting(b, r, c)
    decreases |b.packages| - from
  {
    if from == |b.packages| || Conflicting(b, r, from) then from else FirstConflict(b, r, from + 1)
  }

  /** The entry package is published by this bundle, or already was in this version. */
  predicate HasEntry(b: Bundle, r: Remote) {
    (exists p | p in b.packages :: p.name == RELEASE_ENTRY_PACKAGE)
      || Release(RELEASE_ENTRY_PACKAGE, b.version) in r.versions
  }

  /** Where an uninterrupted run from `r0` ends. */
  function Final(b: Bundle, r0: Remote): Machine {
    var c, n := FirstConflict(b, r0), |b.packages|;
    if c < n then Machine(Finished(IntegrityConflict(b.packages[c].name)), StateAt(b, r0, c, c))
    else if HasEntry(b, r0) then Machine(Finished(Published), WithLatest(b, StateAt(b, r0, n, n)))
    else Machine(Finished(CommandFailed), StateAt(b, r0, n, n))
  }

  /** The registry at each command, relative to the registry the run started from. */
  ghost predicate OnTrack(b: Bundle, r0: Remote, m: Machine) {
    var c, n := FirstConflict(b, r0), |b.packages|;
    match m.pc
    case View(i) => i < n && i <= c && m.remote == StateAt(b, r0, i, i)
    case Upload(i) => i < c && ReleaseOf(b, i) !in r0.versions && m.remote == StateAt(b, r0, i, i)
    case ReadTag(i) => i < c && (m.remote == StateAt(b, r0, i + 1, i) || m.remote == StateAt(b, r0, i + 1, i + 1))
    case AddTag(i) => i < c && m.remote == StateAt(b, r0, i + 1, i)
    case ReadLatest => c == n && m.remote == StateAt(b, r0, n, n)
    case AddLatest => c == n && m.remote == StateAt(b, r0, n, n)
    case Verify(i) => i < n && c == n && HasEntry(b, r0) && m.remote == WithLatest(b, StateAt(b, r0, n, n))
    case VerifyLatest => c == n && HasEntry(b, r0) && m.remote == WithLatest(b, StateAt(b, r0, n, n))
    case Finished(_) => m == Final(b, r0)
  }

  lemma StateAtHas(b: Bundle, r0: Remote, v: nat, t: nat, j: nat)
    requires ValidBundle(b) && v <= |b.packages| && t <= |b.packages| && j < |b.packages|
    ensures var r := StateAt(b, r0, v, t);
      && (j < v ==> ReleaseOf(b, j) in r.versions && r.versions[ReleaseOf(b, j)] == b.packages[j].integrity)
      && (j >= v ==> (ReleaseOf(b, j) in r.versions <==> ReleaseOf(b, j) in r0.versions))
      && (j >= v && ReleaseOf(b, j) in r0.versions ==> r.versions[ReleaseOf(b, j)] == r0.versions[ReleaseOf(b, j)])
      && (j < t ==> TagLookup(r, TagOf(b, j)) == Some(b.version))
      && (j >= t ==> TagLookup(r, TagOf(b, j)) == TagLookup(r0, TagOf(b, j)))
  {
    VersionsPut(b, v);
    TagsPut(b, t);
  }

  lemma PutLast<K, V>(m: map<K, V>, d: map<K, V>, k: K, v: V)
    ensures (m + d)[k := v] == m + d[k := v]
    ensures k in m && m[k] == v && k !in d ==> m + d == m + d[k := v]
  {
  }

  lemma StateAtNext(b: Bundle, r0: Remote, i: nat)
    requires ValidBundle(b) && i < |b.packages|
    ensures StateAt(b, r0, i + 1, i).versions
      == StateAt(b, r0, i, i).versions[ReleaseOf(b, i) := b.packages[i].integrity]
    ensures StateAt(b, r0, i + 1, i + 1).versions == StateAt(b, r0, i + 1, i).versions
    ensures StateAt(b, r0, i + 1, i).tags == StateAt(b, r0, i, i).tags
    ensures StateAt(b, r0, i + 1, i + 1).tags == StateAt(b, r0, i, i).tags[TagOf(b, i) := b.version]
    ensures ReleaseOf(b, i) in r0.versions && r0.versions[ReleaseOf(b, i)] == b.packages[i].integrity ==>
      StateAt(b, r0, i, i) == StateAt(b, r0, i + 1, i)
    ensures TagLookup(r0, TagOf(b, i)) == Some(b.version) ==>
      StateAt(b, r0, i + 1, i) == StateAt(b, r0, i + 1, i + 1)
  {
    VersionsPut(b, i);
    TagsPut(b, i);
    PutLast(r0.versions, VersionsOf(b, i), ReleaseOf(b, i), b.packages[i].integrity);
    PutLast(r0.tags, TagsOf(b, i), TagOf(b, i), b.version);
  }

  lemma ValidAt(b: Bundle, r0: Remote)
    requires ValidBundle(b) && ValidRemote(r0)
    ensures ValidRemote(StateAt(b, r0, |b.packages|, |b.packages|))
  {
    var n := |b.packages|;
    var r := StateAt(b, r0, n, n);
    VersionsPut(b, n);
    TagsPut(b, n);
    forall k | k in r.tags ensures Release(k.name, r.tags[k]) in r.versions {
      if k in TagsOf(b, n) {
        var j :| 0 <= j < n && TagOf(b, j) == k;
        assert ReleaseOf(b, j) in VersionsOf(b, n);
      } else {
        assert k in r0.tags;
      }
    }
  }

  lemma EntryAt(b: Bundle, r0: Remote)
    requires ValidBundle(b)
    ensures Release(RELEASE_ENTRY_PACKAGE, b.version) in StateAt(b, r0, |b.packages|, |b.packages|).versions
       <==> HasEntry(b, r0)
  {
    var n, entry := |b.packages|, Release(RELEASE_ENTRY_PACKAGE, b.version);
    VersionsPut(b, n);
    TagsPut(b, n);
    if p :| p in b.packages && p.name == RELEASE_ENTRY_PACKAGE {
      var j :| 0 <= j < n && b.packages[j] == p;
      assert ReleaseOf(b, j) == entry;
    }
    if entry in VersionsOf(b, n) {
      var j :| 0 <= j < n && ReleaseOf(b, j) == entry;
      assert b.packages[j] in b.packages;
    }
  }

  lemma ViewStep(b: Bundle, r0: Remote, m: Machine)
    requires ValidBundle(b) && InRange(b, m.pc) && OnTrack(b, r0, m) && m.pc.View?
    ensures OnTrack(b, r0, Step(b, m))
  {
    var i := m.pc.i;
    StateAtNext(b, r0, i);
    StateAtHas(b, r0, i, i, i);
    assert Conflicting(b, m.remote, i) <==> Conflicting(b, r0, i);
    assert Conflicting(b, r0, i) <==> i == FirstConflict(b, r0);
  }

  lemma UploadStep(b: Bundle, r0: Remote, m: Machine)
    requires ValidBundle(b) && InRange(b, m.pc) && OnTrack(b, r0, m) && m.pc.Upload?
    ensures OnTrack(b, r0, Step(b, m))
  {
    StateAtNext(b, r0, m.pc.i);
    StateAtHas(b, r0, m.pc.i, m.pc.i, m.pc.i);
  }

  lemma TagAt(b: Bundle, r0: Remote, i: nat)
    requires ValidBundle(b) && i < |b.packages|
    ensures ReleaseOf(b, i) in StateAt(b, r0, i + 1, i).versions
      && ReleaseOf(b, i) in StateAt(b, r0, i + 1, i + 1).versions
    ensures TagLookup(StateAt(b, r0, i + 1, i), TagOf(b, i)) == Some(b.version) ==>
      StateAt(b, r0, i + 1, i) == StateAt(b, r0, i + 1, i + 1)
    ensures TagLookup(StateAt(b, r0, i + 1, i + 1), TagOf(b, i)) == Some(b.version)
  {
    StateAtNext(b, r0, i);
    StateAtHas(b, r0, i + 1, i, i);
    StateAtHas(b, r0, i + 1, i + 1, i);
  }

  lemma ReadTagStep(b: Bundle, r0: Remote, m: Machine)
    requires ValidBundle(b) && InRange(b, m.pc) && OnTrack(b, r0, m) && m.pc.ReadTag?
    ensures OnTrack(b, r0, Step(b, m))
  {
    TagAt(b, r0, m.pc.i);
    assert ReleaseOf(b, m.pc.i) in m.remote.versions;
  }

  lemma AddTagStep(b: Bundle, r0: Remote, m: Machine)
    requires ValidBundle(b) && InRange(b, m.pc) && OnTrack(b, r0, m) && m.pc.AddTag?
    ensures OnTrack(b, r0, Step(b, m))
  {
    StateAtNext(b, r0, m.pc.i);
    StateAtHas(b, r0, m.pc.i + 1, m.pc.i, m.pc.i);
  }

  lemma PackageStep(b: Bundle, r0: Remote, m: Machine)
    requires ValidBundle(b) && InRange(b, m.pc) && OnTrack(b, r0, m)
    requires m.pc.View? || m.pc.Upload? || m.pc.ReadTag? || m.pc.AddTag?
    ensures OnTrack(b, r0, Step(b, m))
  {
    if m.pc.View? {
      ViewStep(b, r0, m);
    } else if m.pc.Upload? {
      UploadStep(b, r0, m);
    } else if m.pc.ReadTag? {
      ReadTagStep(b, r0, m);
    } else {
      AddTagStep(b, r0, m);
    }
  }

  lemma LatestStep(b: Bundle, r0: Remote, m: Machine)
    requires ValidBundle(b) && ValidRemote(r0) && OnTrack(b, r0, m)
    requires m.pc.ReadLatest? || m.pc.AddLatest?
    ensures OnTrack(b, r0, Step(b, m))
  {
    var r, entry := m.remote, Release(RELEASE_ENTRY_PACKAGE, b.version);
    assert entry in r.versions <==> HasEntry(b, r0) by { EntryAt(b, r0); }
    if TagLookup(r, LATEST_KEY) == Some(b.version) {
      assert entry in r.versions by { ValidAt(b, r0); }
      assert WithLatest(b, r) == r;
    }
  }

  /** Every package is present with its integrity and carries the bundle's dist-tag. */
  ghost predicate AllPresent(b: Bundle, r: Remote) {
    forall j | 0 <= j < |b.packages| ::
      && ReleaseOf(b, j) in r.versions
      && r.versions[ReleaseOf(b, j)] == b.packages[j].integrity
      && TagLookup(r, TagOf(b, j)) == Some(b.version)
  }

  lemma AllPresentAtEnd(b: Bundle, r0: Remote)
    requires ValidBundle(b)
    ensures AllPresent(b, StateAt(b, r0, |b.packages|, |b.packages|))
    ensures AllPresent(b, WithLatest(b, StateAt(b, r0, |b.packages|, |b.packages|)))
  {
    forall j | 0 <= j < |b.packages| {
      StateAtHas(b, r0, |b.packages|, |b.packages|, j);
    }
  }

  lemma VerifyStep(b: Bundle, r0: Remote, m: Machine)
    requires ValidBundle(b) && InRange(b, m.pc) && OnTrack(b, r0, m) && m.pc.Verify?
    ensures OnTrack(b, r0, Step(b, m))
  {
    AllPresentAtEnd(b, r0);
    assert ReleaseOf(b, m.pc.i) in m.remote.versions;
  }

  lemma OnTrackKept(b: Bundle, r0: Remote, m: Machine)
    requires ValidBundle(b) && ValidRemote(r0) && InRange(b, m.pc) && OnTrack(b, r0, m)
    ensures OnTrack(b, r0, Step(b, m))
  {
    match m.pc {
      case View(_) => PackageStep(b, r0, m);
      case Upload(_) => PackageStep(b, r0, m);
      case ReadTag(_) => PackageStep(b, r0, m);
      case AddTag(_) => PackageStep(b, r0, m);
      case ReadLatest => LatestStep(b, r0, m);
      case AddLatest => LatestStep(b, r0, m);
      case Verify(_) => VerifyStep(b, r0, m);
      case _ =>
    }
  }

  lemma StartOnTrack(b: Bundle, r0: Remote)
    requires ValidBundle(b)
    ensures OnTrack(b, r0, Start(b, r0))
  {
    assert StateAt(b, r0, 0, 0) == r0;
  }

  lemma {:induction false} RunOnTrack(b: Bundle, r0: Remote, k: nat)
    requires ValidBundle(b) && ValidRemote(r0)
    ensures OnTrack(b, r0, Run(b, Start(b, r0), k))
  {
    if k == 0 {
      StartOnTrack(b, r0);
    } else {
      RunOnTrack(b, r0, k - 1);
      OnTrackKept(b, r0, Run(b, Start(b, r0), k - 1));
    }
  }

  // ---------------------------------------------------------------------------
  // What verification finds
  // ---------------------------------------------------------------------------

  /** The package is present with its integrity and carries the bundle's dist-tag. */
  predicate IsPresent(b: Bundle, r: Remote, j: nat)
    requires j < |b.packages|
  {
    && ReleaseOf(b, j) in r.versions
    && r.versions[ReleaseOf(b, j)] == b.packages[j].integrity
    && TagLookup(r, TagOf(b, j)) == Some(b.version)
  }

  ghost predicate PresentBefore(b: Bundle, r: Remote, i: nat) {
    forall j | 0 <= j < |b.packages| && j < i :: IsPresent(b, r, j)
  }

  lemma VerifyNext(b: Bundle, r: Remote, i: nat)
    requires i < |b.packages|
    ensures Step(b, Machine(Verify(i), r))
         == Machine(if IsPresent(b, r, i) then NextVerify(b, i + 1) else Finished(VerificationFailed), r)
  {
  }

  lemma {:induction false} VerifiedBefore(b: Bundle, r: Remote, i: nat)
    requires i <= |b.packages|
    ensures Run(b, Machine(NextVerify(b, 0), r), i)
         == Machine(if PresentBefore(b, r, i) then NextVerify(b, i) else Finished(VerificationFailed), r)
  {
    if i > 0 {
      VerifiedBefore(b, r, i - 1);
      VerifyNext(b, r, i - 1);
      assert PresentBefore(b, r, i) <==> PresentBefore(b, r, i - 1) && IsPresent(b, r, i - 1);
    }
  }

  /** Whatever the registry holds, the machine's verification succeeds exactly when every package is
      present, unaltered and tagged and the entry package's `latest` is this version. */
  lemma VerificationExactly(b: Bundle, r: Remote)
    ensures Run(b, Machine(NextVerify(b, 0), r), |b.packages| + 1)
         == Machine(Finished(if AllPresent(b, r) && TagLookup(r, LATEST_KEY) == Some(b.version) then Published
                             else VerificationFailed), r)
  {
    VerifiedBefore(b, r, |b.packages|);
    AllPresentAsOne(b, r);
  }

  lemma AllPresentAsOne(b: Bundle, r: Remote)
    ensures AllPresent(b, r) <==> PresentBefore(b, r, |b.packages|)
  {
    if PresentBefore(b, r, |b.packages|) {
      forall j | 0 <= j < |b.packages|
        ensures ReleaseOf(b, j) in r.versions && r.versions[ReleaseOf(b, j)] == b.packages[j].integrity
        ensures TagLookup(r, TagOf(b, j)) == Some(b.version)
      {
        assert IsPresent(b, r, j);
      }
    }
  }

  // ---------------------------------------------------------------------------
  // Termination and the outcome
  // ---------------------------------------------------------------------------

  /** Commands still to come. */
  function Remaining(b: Bundle, pc: Pc): nat
    requires InRange(b, pc)
  {
    var n := |b.packages|;
    match pc
    case View(i) => 4 * (n - i) + n + 3
    case Upload(i) => 4 * (n - i) + n + 2
    case ReadTag(i) => 4 * (n - i) + n + 1
    case AddTag(i) => 4 * (n - i) + n
    case ReadLatest => n + 3
    case AddLatest => n + 2
    case Verify(i) => n - i + 1
    case VerifyLatest => 1
    case Finished(_) => 0
  }

  lemma StepFinishes(b: Bundle, m: Machine)
    requires InRange(b, m.pc)
    ensures m.pc.Finished? || Remaining(b, Step(b, m).pc) < Remaining(b, m.pc)
  {
  }

  lemma {:induction false} RunFinishes(b: Bundle, m: Machine, k: nat)
    requires InRange(b, m.pc)
    ensures Remaining(b, Run(b, m, k).pc) <= if k > Remaining(b, m.pc) then 0 else Remaining(b, m.pc) - k
  {
    if k > 0 {
      RunFinishes(b, m, k - 1);
      StepFinishes(b, Run(b, m, k - 1));
    }
  }

  /** An uninterrupted run always ends in the closed form: it publishes exactly when no
      package conflicts and the entry package is available, and verification never fails. */
  lemma UninterruptedRun(b: Bundle, r0: Remote, k: nat)
    requires ValidBundle(b) && ValidRemote(r0) && k >= Budget(b)
    ensures Run(b, Start(b, r0), k) == Final(b, r0)
  {
    RunFinishes(b, Start(b, r0), k);
    RunOnTrack(b, r0, k);
  }

  /** A run publishes exactly when no package exists with another integrity and the entry
      package is available; everything is then present and `latest` points at the bundle. */
  lemma PublishedExactly(b: Bundle, r0: Remote)
    requires ValidBundle(b)
    ensures Final(b, r0).pc == Finished(Published) <==>
      HasEntry(b, r0) && forall i | 0 <= i < |b.packages| :: !Conflicting(b, r0, i)
    ensures Final(b, r0).pc == Finished(Published) ==>
      AllPresent(b, Final(b, r0).remote) && TagLookup(Final(b, r0).remote, LATEST_KEY) == Some(b.version)
  {
    AllPresentAtEnd(b, r0);
  }

  // ---------------------------------------------------------------------------
  // Interruption and resumption
  // ---------------------------------------------------------------------------

  /** An interrupted run leaves a part of what the whole run puts in place. */
  ghost predicate PartOf(b: Bundle, r0: Remote, r1: Remote) {
    var c, n := FirstConflict(b, r0), |b.packages|;
    || (exists v, t :: 0 <= t <= v <= c && r1 == StateAt(b, r0, v, t))
    || (c == n && HasEntry(b, r0) && r1 == WithLatest(b, StateAt(b, r0, n, n)))
  }

  lemma InterruptedPart(b: Bundle, r0: Remote, k: nat)
    requires ValidBundle(b) && ValidRemote(r0)
    ensures PartOf(b, r0, Run(b, Start(b, r0), k).remote)
  {
    RunOnTrack(b, r0, k);
    var m := Run(b, Start(b, r0), k);
    if m.pc.ReadTag? && m.remote != StateAt(b, r0, m.pc.i + 1, m.pc.i) {
      assert m.remote == StateAt(b, r0, m.pc.i + 1, m.pc.i + 1);
    }
  }

  lemma Absorb<K, V>(m: map<K, V>, part: map<K, V>, whole: map<K, V>)
    requires forall k | k in part :: k in whole && part[k] == whole[k]
    ensures m + part + whole == m + whole
  {
  }

  lemma AbsorbBelow<K, V>(m: map<K, V>, d: map<K, V>, k: K, v: V)
    ensures ((m + d)[k := v] + d)[k := v] == (m + d)[k := v]
  {
  }

  lemma PartsAreInWhole(b: Bundle, v: nat, c: nat)
    requires ValidBundle(b) && v <= c <= |b.packages|
    ensures forall k | k in VersionsOf(b, v) :: k in VersionsOf(b, c) && VersionsOf(b, v)[k] == VersionsOf(b, c)[k]
    ensures forall k | k in TagsOf(b, v) :: k in TagsOf(b, c) && TagsOf(b, v)[k] == TagsOf(b, c)[k]
  {
    VersionsPut(b, v);
    TagsPut(b, v);
    VersionsPut(b, c);
    TagsPut(b, c);
  }

  lemma StateAtAbsorbs(b: Bundle, r0: Remote, v: nat, t: nat, c: nat)
    requires ValidBundle(b) && t <= c && v <= c <= |b.packages|
    ensures StateAt(b, StateAt(b, r0, v, t), c, c) == StateAt(b, r0, c, c)
  {
    PartsAreInWhole(b, v, c);
    PartsAreInWhole(b, t, c);
    Absorb(r0.versions, VersionsOf(b, v), VersionsOf(b, c));
    Absorb(r0.tags, TagsOf(b, t), TagsOf(b, c));
  }

  lemma {:induction false} SameConflicts(b: Bundle, r0: Remote, r1: Remote, from: nat)
    requires from <= |b.packages|
    requires forall j | 0 <= j < |b.packages| :: Conflicting(b, r0, j) <==> Conflicting(b, r1, j)
    ensures FirstConflict(b, r0, from) == FirstConflict(b, r1, from)
    decreases |b.packages| - from
  {
    if from < |b.packages| {
      SameConflicts(b, r0, r1, from + 1);
    }
  }

  /** Putting versions in place up to the first conflict changes no later decision. */
  lemma SameDecisions(b: Bundle, r0: Remote, r1: Remote, v: nat)
    requires ValidBundle(b) && v <= FirstConflict(b, r0) && r1.versions == r0.versions + VersionsOf(b, v)
    ensures FirstConflict(b, r1) == FirstConflict(b, r0)
    ensures HasEntry(b, r1) <==> HasEntry(b, r0)
  {
    VersionsPut(b, v);
    TagsPut(b, v);
    forall j | 0 <= j < |b.packages| ensures Conflicting(b, r0, j) <==> Conflicting(b, r1, j) {
      if j < v {
        assert !Conflicting(b, r0, j);
      }
    }
    SameConflicts(b, r0, r1, 0);
    var entry := Release(RELEASE_ENTRY_PACKAGE, b.version);
    if entry in VersionsOf(b, v) {
      var j :| 0 <= j < v && ReleaseOf(b, j) == entry;
      assert b.packages[j] in b.packages;
    }
  }

  lemma CompleteHasSameState(b: Bundle, r0: Remote)
    requires ValidBundle(b)
    ensures var n := |b.packages|; var whole := WithLatest(b, StateAt(b, r0, n, n));
      whole.versions == r0.versions + VersionsOf(b, n) && WithLatest(b, StateAt(b, whole, n, n)) == whole
  {
    var n := |b.packages|;
    Absorb(r0.versions, VersionsOf(b, n), VersionsOf(b, n));
    AbsorbBelow(r0.tags, TagsOf(b, n), LATEST_KEY, b.version);
  }

  lemma PartHasSameFinal(b: Bundle, r0: Remote, r1: Remote)
    requires ValidBundle(b) && PartOf(b, r0, r1)
    ensures Final(b, r1) == Final(b, r0)
  {
    var c, n := FirstConflict(b, r0), |b.packages|;
    if v, t :| 0 <= t <= v <= c && r1 == StateAt(b, r0, v, t) {
      assert r1.versions == r0.versions + VersionsOf(b, v);
      SameDecisions(b, r0, r1, v);
      assert StateAt(b, r1, c, c) == StateAt(b, r0, c, c) by { StateAtAbsorbs(b, r0, v, t, c); }
    } else {
      assert r1.versions == r0.versions + VersionsOf(b, n)
        && WithLatest(b, StateAt(b, r1, n, n)) == WithLatest(b, StateAt(b, r0, n, n)) by
      {
        CompleteHasSameState(b, r0);
      }
      SameDecisions(b, r0, r1, n);
    }
  }

  lemma {:induction false} RunKeepsValid(b: Bundle, m: Machine, k: nat)
    requires InRange(b, m.pc) && ValidRemote(m.remote)
    ensures ValidRemote(Run(b, m, k).remote)
  {
    if k > 0 {
      RunKeepsValid(b, m, k - 1);
      StepKeepsValid(b, Run(b, m, k - 1));
    }
  }

  lemma StepKeepsValid(b: Bundle, m: Machine)
    requires InRange(b, m.pc) && ValidRemote(m.remote)
    ensures ValidRemote(Step(b, m).remote)
  {
  }

  /** Stop a run after any command and rerun with the same bundle: outcome and registry
      are those of an uninterrupted run. */
  lemma ResumeAfterInterruption(b: Bundle, r0: Remote, k: nat)
    requires ValidBundle(b) && ValidRemote(r0)
    ensures var left := Run(b, Start(b, r0), k).remote;
      Run(b, Start(b, left), Budget(b)) == Run(b, Start(b, r0), Budget(b)) == Final(b, r0)
  {
    var left := Run(b, Start(b, r0), k).remote;
    InterruptedPart(b, r0, k);
    PartHasSameFinal(b, r0, left);
    RunKeepsValid(b, Start(b, r0), k);
    UninterruptedRun(b, r0, Budget(b));
    UninterruptedRun(b, left, Budget(b));
  }

  /** The registry left by a whole history of interrupted runs. */
  function AfterInterruptions(b: Bundle, r0: Remote, stops: seq<nat>): Remote
    decreases |stops|
  {
    if stops == [] then r0
    else AfterInterruptions(b, Run(b, Start(b, r0), stops[0]).remote, stops[1..])
  }

  /** Any number of interruptions changes nothing about where the last run ends. */
  lemma {:induction false} ResumeAfterMany(b: Bundle, r0: Remote, stops: seq<nat>)
    requires ValidBundle(b) && ValidRemote(r0)
    ensures Run(b, Start(b, AfterInterruptions(b, r0, stops)), Budget(b)) == Final(b, r0)
    decreases |stops|
  {
    if stops == [] {
      UninterruptedRun(b, r0, Budget(b));
    } else {
      var left := Run(b, Start(b, r0), stops[0]).remote;
      InterruptedPart(b, r0, stops[0]);
      PartHasSameFinal(b, r0, left);
      RunKeepsValid(b, Start(b, r0), stops[0]);
      ResumeAfterMany(b, left, stops[1..]);
    }
  }

  // ---------------------------------------------------------------------------
  // What no run does
  // ---------------------------------------------------------------------------

  /** The key is one of the bundle's tags, or the entry package's `latest`. */
  ghost predicate IsOwnTag(b: Bundle, k: TagKey) {
    k == LATEST_KEY || exists i :: 0 <= i < |b.packages| && k == TagOf(b, i)
  }

  /** A package's version as the bundle records it. */
  ghost predicate IsOwnVersion(b: Bundle, k: Release, integrity: Integrity) {
    exists i :: 0 <= i < |b.packages| && k == ReleaseOf(b, i) && integrity == b.packages[i].integrity
  }

  /** `r1` keeps every integrity of `r0` and adds none but the bundle's; a tag is as it was, or the
      bundle's own and moved to the bundle's version. */
  ghost predicate OnlyAdds(b: Bundle, r0: Remote, r1: Remote) {
    && (forall k | k in r0.versions :: k in r1.versions && r1.versions[k] == r0.versions[k])
    && (forall k | k in r1.versions && k !in r0.versions :: IsOwnVersion(b, k, r1.versions[k]))
    && (forall k :: TagLookup(r1, k) == TagLookup(r0, k) || (IsOwnTag(b, k) && TagLookup(r1, k) == Some(b.version)))
  }

  lemma AddingKeeps(b: Bundle, r0: Remote, r: Remote, k: Release, integrity: Integrity)
    requires OnlyAdds(b, r0, r) && k !in r.versions && IsOwnVersion(b, k, integrity)
    ensures OnlyAdds(b, r0, r.(versions := r.versions[k := integrity]))
  {
    var r1 := r.(versions := r.versions[k := integrity]);
    assert forall t :: TagLookup(r1, t) == TagLookup(r, t);
  }

  lemma TaggingKeeps(b: Bundle, r0: Remote, r: Remote, k: TagKey)
    requires OnlyAdds(b, r0, r) && IsOwnTag(b, k)
    ensures OnlyAdds(b, r0, r.(tags := r.tags[k := b.version]))
  {
    var r1 := r.(tags := r.tags[k := b.version]);
    assert forall t :: TagLookup(r1, t) == if t == k then Some(b.version) else TagLookup(r, t);
  }

  lemma StepOnlyAdds(b: Bundle, r0: Remote, m: Machine)
    requires InRange(b, m.pc) && OnlyAdds(b, r0, m.remote)
    ensures OnlyAdds(b, r0, Step(b, m).remote)
  {
    var r := m.remote;
    match m.pc {
      case Upload(i) =>
        if ReleaseOf(b, i) !in r.versions {
          AddingKeeps(b, r0, r, ReleaseOf(b, i), b.packages[i].integrity);
          TaggingKeeps(b, r0, r.(versions := r.versions[ReleaseOf(b, i) := b.packages[i].integrity]), TagOf(b, i));
        }
      case AddTag(i) => TaggingKeeps(b, r0, r, TagOf(b, i));
      case AddLatest => TaggingKeeps(b, r0, r, LATEST_KEY);
      case _ =>
    }
  }

  /** At every point of every run no published integrity has been replaced, only the bundle's have been
      added, and tags have moved to the bundle's version or not at all. */
  lemma {:induction false} RunOnlyAdds(b: Bundle, m: Machine, k: nat)
    requires InRange(b, m.pc)
    ensures OnlyAdds(b, m.remote, Run(b, m, k).remote)
  {
    if k > 0 {
      RunOnlyAdds(b, m, k - 1);
      StepOnlyAdds(b, m.remote, Run(b, m, k - 1));
    }
  }

  /** At this point `latest` has moved only if every package is already in place. */
  ghost predicate LatestAfterAll(b: Bundle, r0: Remote, k: nat) {
    var now := Run(b, Start(b, r0), k).remote;
    TagLookup(now, LATEST_KEY) != TagLookup(r0, LATEST_KEY) ==> AllPresent(b, now)
  }

  lemma LatestMovesLast(b: Bundle, r0: Remote, k: nat)
    requires ValidBundle(b) && ValidRemote(r0)
    requires forall i | 0 <= i < |b.packages| - 1 :: TagOf(b, i) != LATEST_KEY
    ensures LatestAfterAll(b, r0, k)
  {
    InterruptedPart(b, r0, k);
    var now := Run(b, Start(b, r0), k).remote;
    AllPresentAtEnd(b, r0);
    if v, t :| 0 <= t <= v <= FirstConflict(b, r0) && now == StateAt(b, r0, v, t) {
      LatestInPart(b, r0, v, t);
    }
  }

  lemma LatestInPart(b: Bundle, r0: Remote, v: nat, t: nat)
    requires ValidBundle(b) && t <= v <= |b.packages|
    requires forall i | 0 <= i < |b.packages| - 1 :: TagOf(b, i) != LATEST_KEY
    ensures TagLookup(StateAt(b, r0, v, t), LATEST_KEY) != TagLookup(r0, LATEST_KEY) ==> v == t == |b.packages|
  {
    VersionsPut(b, t);
    TagsPut(b, t);
  }

  const EMPTY := Remote(map[], map[])

  function EmptyAt(b: Bundle, i: nat): Remote
    requires i <= |b.packages|
  {
    StateAt(b, EMPTY, i, i)
  }

  lemma FreshPackage(b: Bundle, i: nat)
    requires ValidBundle(b) && i < |b.packages|
    ensures Step(b, Machine(View(i), EmptyAt(b, i))) == Machine(Upload(i), EmptyAt(b, i))
    ensures Step(b, Machine(Upload(i), EmptyAt(b, i))) == Machine(ReadTag(i), EmptyAt(b, i + 1))
    ensures Step(b, Machine(ReadTag(i), EmptyAt(b, i + 1))) == Machine(Next(b, i + 1), EmptyAt(b, i + 1))
  {
    StateAtHas(b, EMPTY, i, i, i);
    StateAtHas(b, EMPTY, i + 1, i + 1, i);
    StateAtNext(b, EMPTY, i);
    assert ReleaseOf(b, i) in EmptyAt(b, i + 1).versions;
  }

  /** Some interruption of a run over an empty registry finds the machine here. */
  ghost predicate Visited(b: Bundle, here: Machine) {
    exists k: nat :: Run(b, Start(b, EMPTY), k) == here
  }

  lemma VisitedNext(b: Bundle, here: Machine)
    requires InRange(b, here.pc) && Visited(b, here)
    ensures Visited(b, Step(b, here))
  {
    var k: nat :| Run(b, Start(b, EMPTY), k) == here;
    assert Run(b, Start(b, EMPTY), k + 1) == Step(b, here);
  }

  lemma VisitedStart(b: Bundle)
    requires ValidBundle(b)
    ensures Visited(b, Machine(View(0), EmptyAt(b, 0)))
  {
    assert EmptyAt(b, 0) == EMPTY;
    assert Run(b, Start(b, EMPTY), 0) == Machine(View(0), EmptyAt(b, 0));
  }

  lemma TaggedLeadsOn(b: Bundle, i: nat)
    requires ValidBundle(b) && i + 1 < |b.packages| && Visited(b, Machine(ReadTag(i), EmptyAt(b, i + 1)))
    ensures Visited(b, Machine(View(i + 1), EmptyAt(b, i + 1)))
  {
    FreshPackage(b, i);
    VisitedNext(b, Machine(ReadTag(i), EmptyAt(b, i + 1)));
  }

  /** The run over an empty registry, package by package. */
  lemma {:induction false} EachPackageVisited(b: Bundle, i: nat)
    requires ValidBundle(b) && i < |b.packages|
    ensures Visited(b, Machine(ReadTag(i), EmptyAt(b, i + 1)))
  {
    if i == 0 {
      VisitedStart(b);
    } else {
      EachPackageVisited(b, i - 1);
      TaggedLeadsOn(b, i - 1);
    }
    PackageVisited(b, i);
  }

  lemma PackageVisited(b: Bundle, i: nat)
    requires ValidBundle(b) && i < |b.packages| && Visited(b, Machine(View(i), EmptyAt(b, i)))
    ensures Visited(b, Machine(ReadTag(i), EmptyAt(b, i + 1)))
  {
    FreshPackage(b, i);
    VisitedNext(b, Machine(View(i), EmptyAt(b, i)));
    VisitedNext(b, Machine(Upload(i), EmptyAt(b, i)));
  }

  lemma TooEarly(b: Bundle, i: nat)
    requires ValidBundle(b) && i < |b.packages| - 1 && TagOf(b, i) == LATEST_KEY
    ensures TagLookup(EmptyAt(b, i + 1), LATEST_KEY) == Some(b.version)
    ensures !AllPresent(b, EmptyAt(b, i + 1))
  {
    StateAtHas(b, EMPTY, i + 1, i + 1, i);
    StateAtHas(b, EMPTY, i + 1, i + 1, i + 1);
    assert ReleaseOf(b, i + 1) !in EmptyAt(b, i + 1).versions;
  }

  lemma LatestMovesEarly(b: Bundle, i: nat) returns (k: nat)
    requires ValidBundle(b) && i < |b.packages| - 1 && TagOf(b, i) == LATEST_KEY
    ensures ValidRemote(EMPTY) && !LatestAfterAll(b, EMPTY, k)
  {
    EachPackageVisited(b, i);
    k :| Run(b, Start(b, EMPTY), k) == Machine(ReadTag(i), EmptyAt(b, i + 1));
    TooEarly(b, i);
  }

  /** `latest` on the entry package moves only after every package is in place exactly
      when the bundle's own dist-tag is not `latest`, unless the entry package comes last. */
  lemma LatestMovesLastExactly(b: Bundle)
    requires ValidBundle(b)
    ensures (forall i | 0 <= i < |b.packages| - 1 ::
          !(b.distTag == LATEST_DIST_TAG && b.packages[i].name == RELEASE_ENTRY_PACKAGE))
       <==> forall r0, k | ValidRemote(r0) :: LatestAfterAll(b, r0, k)
  {
    if i :| 0 <= i < |b.packages| - 1 && TagOf(b, i) == LATEST_KEY {
      var k := LatestMovesEarly(b, i);
      assert b.packages[i].name == RELEASE_ENTRY_PACKAGE;
    } else {
      forall i | 0 <= i < |b.packages| - 1
        ensures !(b.distTag == LATEST_DIST_TAG && b.packages[i].name == RELEASE_ENTRY_PACKAGE)
      {
        assert TagOf(b, i) != LATEST_KEY;
      }
      forall r0, k | ValidRemote(r0) ensures LatestAfterAll(b, r0, k) {
        LatestMovesLast(b, r0, k);
      }
    }
  }

  // ---------------------------------------------------------------------------
  // The publisher
  // ---------------------------------------------------------------------------

  /** `RegistryPublication`, with the registry it talks to. */
  class RegistryPublication {
    const bundle: Bundle
    var remote: Remote

    constructor (bundle: Bundle, remote: Remote)
      ensures this.bundle == bundle && this.remote == remote
    {
      this.bundle, this.remote := bundle, remote;
    }

    /** `ensureDistTag`: false when npm fails on an absent package or release. */
    method EnsureDistTag(name: PackageName, tag: Tag) returns (ok: bool)
      modifies this
      ensures ok <==>
        && PackageExists(old(remote), name)
        && (TagLookup(old(remote), TagKey(name, tag)) == Some(bundle.version)
          || Release(name, bundle.version) in old(remote).versions)
      ensures remote ==
        if ok then old(remote).(tags := old(remote).tags[TagKey(name, tag) := bundle.version]) else old(remote)
    {
      if !PackageExists(remote, name) { return false; }
      if TagLookup(remote, TagKey(name, tag)) == Some(bundle.version) {
        assert remote.tags == remote.tags[TagKey(name, tag) := bundle.version];
        return true;
      }
      if Release(name, bundle.version) !in remote.versions { return false; }
      remote := remote.(tags := remote.tags[TagKey(name, tag) := bundle.version]);
      return true;
    }

    /** `verifyRemote`: the first package that is missing, altered or not tagged fails it. */
    method VerifyRemote() returns (ok: bool)
      ensures ok <==> AllPresent(bundle, remote)
    {
      for i := 0 to |bundle.packages|
        invariant forall j | 0 <= j < i ::
          && ReleaseOf(bundle, j) in remote.versions
          && remote.versions[ReleaseOf(bundle, j)] == bundle.packages[j].integrity
          && TagLookup(remote, TagOf(bundle, j)) == Some(bundle.version)
      {
        var release := ReleaseOf(bundle, i);
        if release !in remote.versions { return false; }
        if remote.versions[release] != bundle.packages[i].integrity { return false; }
        if TagLookup(remote, TagOf(bundle, i)) != Some(bundle.version) { return false; }
      }
      return true;
    }

    /** One turn of the loop: publish unless present, refuse another integrity, set the tag. */
    method PublishPackage(i: nat, ghost r0: Remote) returns (failure: Option<Outcome>)
      requires ValidBundle(bundle) && i < |bundle.packages| && i <= FirstConflict(bundle, r0)
      requires remote == StateAt(bundle, r0, i, i)
      modifies this
      ensures failure.None? ==> i < FirstConflict(bundle, r0) && remote == StateAt(bundle, r0, i + 1, i + 1)
      ensures failure.Some? ==> i == FirstConflict(bundle, r0) && remote == old(remote)
      ensures failure.Some? ==> failure.value == IntegrityConflict(bundle.packages[i].name)
    {
      var pkg, release := bundle.packages[i], ReleaseOf(bundle, i);
      PackageTurn(bundle, r0, i);
      if release !in remote.versions {
        remote := Remote(remote.versions[release := pkg.integrity], remote.tags[TagOf(bundle, i) := bundle.version]);
      } else if remote.versions[release] != pkg.integrity {
        return Some(IntegrityConflict(pkg.name));
      }
      assert release in remote.versions;
      ghost var tags := remote.tags;
      var tagged := EnsureDistTag(pkg.name, bundle.distTag);
      if !tagged { return Some(CommandFailed); }
      assert tags[TagOf(bundle, i) := bundle.version][TagOf(bundle, i) := bundle.version]
        == tags[TagOf(bundle, i) := bundle.version];
      return None;
    }

    /** An uninterrupted publication ends where the protocol machine ends. */
    method Publish() returns (outcome: Outcome)
      requires ValidBundle(bundle) && ValidRemote(remote)
      modifies this
      ensures Machine(Finished(outcome), remote) == Final(bundle, old(remote))
    {
      ghost var r0 := remote;
      assert StateAt(bundle, r0, 0, 0) == r0;
      for i := 0 to |bundle.packages|
        invariant i <= FirstConflict(bundle, r0) && remote == StateAt(bundle, r0, i, i)
      {
        var failure := PublishPackage(i, r0);
        if failure.Some? { return failure.value; }
      }
      LatestTurn(bundle, r0);
      var tagged := EnsureDistTag(RELEASE_ENTRY_PACKAGE, LATEST_DIST_TAG);
      if !tagged { return CommandFailed; }
      var verified := VerifyRemote();
      if !verified || TagLookup(remote, LATEST_KEY) != Some(bundle.version) { return VerificationFailed; }
      return Published;
    }
  }

  /** When the `latest` tag can be set, and that verification then succeeds. */
  lemma LatestTurn(b: Bundle, r0: Remote)
    requires ValidBundle(b) && ValidRemote(r0)
    ensures var r := StateAt(b, r0, |b.packages|, |b.packages|);
      && (HasEntry(b, r0) ==>
        PackageExists(r, RELEASE_ENTRY_PACKAGE) && Release(RELEASE_ENTRY_PACKAGE, b.version) in r.versions)
      && (!HasEntry(b, r0) ==>
            TagLookup(r, LATEST_KEY) != Some(b.version) && Release(RELEASE_ENTRY_PACKAGE, b.version) !in r.versions)
      && AllPresent(b, WithLatest(b, r))
  {
    ValidAt(b, r0);
    EntryAt(b, r0);
    AllPresentAtEnd(b, r0);
  }

  /** What one turn of the publication loop does to the closed form. */
  lemma PackageTurn(b: Bundle, r0: Remote, i: nat)
    requires ValidBundle(b) && i < |b.packages| && i <= FirstConflict(b, r0)
    ensures var r, release := StateAt(b, r0, i, i), ReleaseOf(b, i);
      && (release in r.versions && r.versions[release] != b.packages[i].integrity <==> i == FirstConflict(b, r0))
      && (release in r.versions && r.versions[release] == b.packages[i].integrity ==>
            r.(tags := r.tags[TagOf(b, i) := b.version]) == StateAt(b, r0, i + 1, i + 1))
      && Remote(r.versions[release := b.packages[i].integrity], r.tags[TagOf(b, i) := b.version])
        == StateAt(b, r0, i + 1, i + 1)
  {
    StateAtHas(b, r0, i, i, i);
    StateAtNext(b, r0, i);
    assert Conflicting(b, StateAt(b, r0, i, i), i) <==> Conflicting(b, r0, i);
    assert Conflicting(b, r0, i) <==> i == FirstConflict(b, r0);
  }
}
