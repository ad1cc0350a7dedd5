/**
 * The worker pool of scripts/publint-all.ts: workers share a counter, each takes the next
 * target, awaits its result and stores it at the target's index. Which lint settles next is
 * a free choice.
 */
module PublintPool {
  import opened Basics
  import opened Texts
  import opened Decimals

  // ---------------------------------------------------------------------------
  // The pool as a state machine
  // ---------------------------------------------------------------------------

  datatype Worker = Linting(index: nat) | Finished

  /** `log` lists the targets whose lint was started, in order. */
  datatype State<R> = State(total: nat, next: nat, workers: seq<Worker>, results: seq<Option<R>>, log: seq<nat>)

  function Empty<R>(total: nat): State<R> {
    State(total, 0, [], seq(total, _ => None), [])
  }

  /** `const index = next; next += 1; if (target === undefined) return`. */
  function Assignment<R>(s: State<R>): Worker {
    if s.next < s.total then Linting(s.next) else Finished
  }

  function Logged<R>(s: State<R>): seq<nat> {
    if s.next < s.total then s.log + [s.next] else s.log
  }

  /** A worker starts; it runs up to its first await. */
  function Spawn<R>(s: State<R>): State<R> {
    s.(next := s.next + 1, workers := s.workers + [Assignment(s)], log := Logged(s))
  }

  function Initial<R>(total: nat, concurrency: nat): State<R> {
    if concurrency == 0 then Empty(total) else Spawn(Initial(total, concurrency - 1))
  }

  predicate Enabled<R>(s: State<R>, w: nat) {
    w < |s.workers| && s.workers[w].Linting? && s.workers[w].index < |s.results|
  }

  /** A worker's lint settles; its result is stored and it takes the next target. */
  function Settle<R>(s: State<R>, w: nat, lint: nat -> R): State<R>
    requires Enabled(s, w)
  {
    var index := s.workers[w].index;
    s.(next := s.next + 1, workers := s.workers[w := Assignment(s)],
       results := s.results[index := Some(lint(index))], log := Logged(s))
  }

  predicate AllFinished<R>(s: State<R>) {
    forall w | 0 <= w < |s.workers| :: s.workers[w].Finished?
  }

  // ---------------------------------------------------------------------------
  // What every step keeps
  // ---------------------------------------------------------------------------

  ghost predicate InFlight<R>(s: State<R>, index: nat) {
    exists w :: 0 <= w < |s.workers| && s.workers[w] == Linting(index)
  }

  /** A taken target is in flight or has its own result; the others are untouched. */
  ghost predicate IndexOk<R(!new)>(s: State<R>, index: nat, lint: nat -> R)
    requires index < |s.results|
  {
    if InFlight(s, index) then index < s.next && s.results[index].None?
    else s.results[index] == if index < s.next then Some(lint(index)) else None
  }

  ghost predicate WorkerOk<R>(s: State<R>, w: nat)
    requires w < |s.workers|
  {
    match s.workers[w]
    case Linting(index) => index < s.total
    case Finished => s.next > s.total
  }

  ghost predicate Separate(workers: seq<Worker>) {
    forall v, w | 0 <= v < w < |workers| && workers[v].Linting? && workers[w].Linting? ::
      workers[v].index != workers[w].index
  }

  ghost predicate Inv<R(!new)>(s: State<R>, lint: nat -> R) {
    && |s.results| == s.total
    && (forall w | 0 <= w < |s.workers| :: WorkerOk(s, w))
    && Separate(s.workers)
    && (forall index | 0 <= index < s.total :: IndexOk(s, index, lint))
    && |s.log| == (if s.next < s.total then s.next else s.total)
    && (forall k | 0 <= k < |s.log| :: s.log[k] == k)
  }

  lemma EmptyKeeps<R(!new)>(total: nat, lint: nat -> R)
    ensures Inv(Empty<R>(total), lint)
  {
  }

  lemma SpawnKeeps<R(!new)>(s: State<R>, lint: nat -> R)
    requires Inv(s, lint)
    ensures Inv(Spawn(s), lint)
  {
    var t := Spawn(s);
    var last := |s.workers|;
    forall index | 0 <= index < s.total ensures IndexOk(t, index, lint) {
      assert IndexOk(s, index, lint);
      if InFlight(s, index) {
        var w :| 0 <= w < |s.workers| && s.workers[w] == Linting(index);
        assert t.workers[w] == Linting(index);
      }
      if index == s.next { assert t.workers[last] == Linting(index); }
    }
    forall w | 0 <= w < |t.workers| ensures WorkerOk(t, w) {
      assert w < last ==> WorkerOk(s, w);
    }
    forall v, w | 0 <= v < w < |t.workers| && t.workers[v].Linting? && t.workers[w].Linting?
      ensures t.workers[v].index != t.workers[w].index
    {
      if w == last { assert IndexOk(s, t.workers[v].index, lint) by { assert WorkerOk(s, v); } }
    }
  }

  lemma SettleKeeps<R(!new)>(s: State<R>, w: nat, lint: nat -> R)
    requires Inv(s, lint) && Enabled(s, w)
    ensures Inv(Settle(s, w, lint), lint)
  {
    var t, done := Settle(s, w, lint), s.workers[w].index;
    forall v | 0 <= v < |t.workers| ensures WorkerOk(t, v) {
      assert WorkerOk(s, v);
    }
    forall index | 0 <= index < s.total ensures IndexOk(t, index, lint) {
      SettleIndex(s, w, lint, index);
    }
    forall u, v | 0 <= u < v < |t.workers| && t.workers[u].Linting? && t.workers[v].Linting?
      ensures t.workers[u].index != t.workers[v].index
    {
      var other := if u == w then v else u;
      if s.workers[other].Linting? {
        assert WorkerOk(s, other);
        assert InFlight(s, s.workers[other].index);
        assert IndexOk(s, s.workers[other].index, lint);
      }
    }
  }

  lemma SettleIndex<R(!new)>(s: State<R>, w: nat, lint: nat -> R, index: nat)
    requires Inv(s, lint) && Enabled(s, w) && index < s.total
    ensures IndexOk(Settle(s, w, lint), index, lint)
  {
    var t, done := Settle(s, w, lint), s.workers[w].index;
    assert IndexOk(s, index, lint);
    assert InFlight(s, done);
    assert IndexOk(s, done, lint);
    if index == s.next {
      assert t.workers[w] == Linting(index);
    } else if index != done && InFlight(s, index) {
      var v :| 0 <= v < |s.workers| && s.workers[v] == Linting(index);
      assert t.workers[v] == Linting(index);
    }
  }

  lemma {:induction false} InitialKeeps<R(!new)>(total: nat, concurrency: nat, lint: nat -> R)
    ensures Inv(Initial<R>(total, concurrency), lint)
    ensures |Initial<R>(total, concurrency).workers| == concurrency && Initial<R>(total, concurrency).total == total
  {
    if concurrency > 0 {
      InitialKeeps<R>(total, concurrency - 1, lint);
      SpawnKeeps(Initial<R>(total, concurrency - 1), lint);
    } else {
      EmptyKeeps(total, lint);
    }
  }

  // ---------------------------------------------------------------------------
  // How many are in flight
  // ---------------------------------------------------------------------------

  function Busy(workers: seq<Worker>): nat {
    if workers == [] then 0 else Busy(workers[..|workers| - 1]) + if workers[|workers| - 1].Linting? then 1 else 0
  }

  function Settled<R>(results: seq<Option<R>>): nat {
    if results == [] then 0 else Settled(results[..|results| - 1]) + if results[|results| - 1].Some? then 1 else 0
  }

  lemma {:induction false} BusyUpdate(workers: seq<Worker>, w: nat, worker: Worker)
    requires w < |workers|
    ensures Busy(workers[w := worker])
         == Busy(workers) - (if workers[w].Linting? then 1 else 0) + if worker.Linting? then 1 else 0
  {
    var n := |workers| - 1;
    var after := workers[w := worker];
    if w < n {
      BusyUpdate(workers[..n], w, worker);
      assert after[..n] == workers[..n][w := worker];
    } else {
      assert after[..n] == workers[..n];
    }
  }

  lemma {:induction false} BusyBound(workers: seq<Worker>)
    ensures Busy(workers) <= |workers|
    ensures (forall w | 0 <= w < |workers| :: workers[w].Linting?) ==> Busy(workers) == |workers|
    ensures (forall w | 0 <= w < |workers| :: workers[w].Finished?) <==> Busy(workers) == 0
  {
    if workers != [] {
      var n := |workers| - 1;
      BusyBound(workers[..n]);
      assert forall w | 0 <= w < n :: workers[..n][w] == workers[w];
    }
  }

  lemma {:induction false} SettledUpdate<R>(results: seq<Option<R>>, index: nat, result: R)
    requires index < |results| && results[index].None?
    ensures Settled(results[index := Some(result)]) == Settled(results) + 1
  {
    var n := |results| - 1;
    var after := results[index := Some(result)];
    if index < n {
      SettledUpdate(results[..n], index, result);
      assert after[..n] == results[..n][index := Some(result)];
    } else {
      assert after[..n] == results[..n];
    }
  }

  lemma {:induction false} SettledBound<R>(results: seq<Option<R>>)
    ensures Settled(results) <= |results|
    ensures Settled(results) == |results| <==> forall i | 0 <= i < |results| :: results[i].Some?
    ensures (forall i | 0 <= i < |results| :: results[i].None?) ==> Settled(results) == 0
  {
    if results != [] {
      var n := |results| - 1;
      SettledBound(results[..n]);
      assert forall i | 0 <= i < n :: results[..n][i] == results[i];
    }
  }

  /** Started lints are in flight or settled. */
  ghost predicate Balanced<R>(s: State<R>) {
    Busy(s.workers) + Settled(s.results) == if s.next < s.total then s.next else s.total
  }

  lemma SpawnBalances<R>(s: State<R>)
    requires Balanced(s)
    ensures Balanced(Spawn(s))
  {
    var t := Spawn(s);
    assert t.workers[..|s.workers|] == s.workers;
  }

  lemma SettleBalances<R(!new)>(s: State<R>, w: nat, lint: nat -> R)
    requires Inv(s, lint) && Balanced(s) && Enabled(s, w)
    ensures Balanced(Settle(s, w, lint)) && Settled(Settle(s, w, lint).results) == Settled(s.results) + 1
  {
    var index := s.workers[w].index;
    assert InFlight(s, index);
    assert IndexOk(s, index, lint);
    BusyUpdate(s.workers, w, Assignment(s));
    SettledUpdate(s.results, index, lint(index));
  }

  lemma {:induction false} InitialBalances<R>(total: nat, concurrency: nat)
    ensures Balanced(Initial<R>(total, concurrency)) && Settled(Initial<R>(total, concurrency).results) == 0
  {
    if concurrency > 0 {
      InitialBalances<R>(total, concurrency - 1);
      SpawnBalances(Initial<R>(total, concurrency - 1));
    } else {
      SettledBound(Empty<R>(total).results);
    }
  }

  /** The pool is never idle: as many lints are in flight as workers and unsettled targets allow. */
  lemma InFlightExactly<R(!new)>(s: State<R>, lint: nat -> R)
    requires Inv(s, lint) && Balanced(s)
    ensures Settled(s.results) <= s.total
    ensures Busy(s.workers) == Smaller(|s.workers|, s.total - Settled(s.results))
  {
    SettledBound(s.results);
    BusyBound(s.workers);
    if w :| 0 <= w < |s.workers| && s.workers[w].Finished? {
      assert WorkerOk(s, w);
    }
  }

  // ---------------------------------------------------------------------------
  // Runs
  // ---------------------------------------------------------------------------

  /** The picks say whose lint settles next. */
  ghost predicate ValidRun<R>(s: State<R>, picks: seq<nat>, lint: nat -> R)
    decreases |picks|
  {
    picks == [] || (Enabled(s, picks[0]) && ValidRun(Settle(s, picks[0], lint), picks[1..], lint))
  }

  ghost function Run<R>(s: State<R>, picks: seq<nat>, lint: nat -> R): State<R>
    requires ValidRun(s, picks, lint)
    decreases |picks|
  {
    if picks == [] then s else Run(Settle(s, picks[0], lint), picks[1..], lint)
  }

  lemma {:induction false} RunKeeps<R(!new)>(s: State<R>, picks: seq<nat>, lint: nat -> R)
    requires Inv(s, lint) && Balanced(s) && ValidRun(s, picks, lint)
    ensures var t := Run(s, picks, lint);
      && Inv(t, lint) && Balanced(t) && t.total == s.total && |t.workers| == |s.workers|
      && Settled(t.results) == Settled(s.results) + |picks|
    decreases |picks|
  {
    if picks != [] {
      SettleKeeps(s, picks[0], lint);
      SettleBalances(s, picks[0], lint);
      RunKeeps(Settle(s, picks[0], lint), picks[1..], lint);
    }
  }

  /** Over every run: targets start once each and in order, results lie at their own index, and
      exactly as many lints are in flight as the concurrency and the unsettled targets allow. */
  lemma EveryRunIsSafe<R(!new)>(total: nat, concurrency: nat, picks: seq<nat>, lint: nat -> R)
    requires ValidRun(Initial<R>(total, concurrency), picks, lint)
    ensures var t := Run(Initial<R>(total, concurrency), picks, lint);
      && |picks| <= total && |t.results| == total
      && Busy(t.workers) == Smaller(concurrency, total - |picks|)
      && |t.log| <= total && (forall k | 0 <= k < |t.log| :: t.log[k] == k)
      && |t.log| == Busy(t.workers) + |picks|
      && forall i | 0 <= i < total && t.results[i].Some? :: t.results[i] == Some(lint(i))
  {
    var s := Initial<R>(total, concurrency);
    InitialKeeps<R>(total, concurrency, lint);
    InitialBalances<R>(total, concurrency);
    RunKeeps(s, picks, lint);
    var t := Run(s, picks, lint);
    InFlightExactly(t, lint);
    forall i | 0 <= i < total && t.results[i].Some? ensures t.results[i] == Some(lint(i)) {
      assert IndexOk(t, i, lint);
    }
  }

  /** A pool that is not finished has a lint that can settle. */
  lemma NeverStuck<R(!new)>(total: nat, concurrency: nat, picks: seq<nat>, lint: nat -> R)
    requires ValidRun(Initial<R>(total, concurrency), picks, lint)
    requires !AllFinished(Run(Initial<R>(total, concurrency), picks, lint))
    ensures exists w :: Enabled(Run(Initial<R>(total, concurrency), picks, lint), w)
  {
    InitialKeeps<R>(total, concurrency, lint);
    InitialBalances<R>(total, concurrency);
    RunKeeps(Initial<R>(total, concurrency), picks, lint);
    var t := Run(Initial<R>(total, concurrency), picks, lint);
    var w: nat :| w < |t.workers| && !t.workers[w].Finished?;
    assert WorkerOk(t, w);
    assert Enabled(t, w);
  }

  /** What `runAll` returns: the results, or the index of the first missing one. */
  datatype Collected<R> = All(results: seq<R>) | Missing(index: nat)

  function Collect<R>(results: seq<Option<R>>): Collected<R> {
    if results == [] then All([])
    else
      var front := Collect(results[..|results| - 1]);
      var last := results[|results| - 1];
      if front.Missing? then front
      else if last.None? then Missing(|results| - 1)
      else All(front.results + [last.value])
  }

  lemma {:induction false} CollectAll<R>(results: seq<Option<R>>, lint: nat -> R)
    requires forall i: nat | i < |results| :: results[i] == Some(lint(i))
    ensures Collect(results) == All(seq(|results|, (i: nat) => lint(i)))
  {
    if results != [] { CollectAll(results[..|results| - 1], lint); }
  }

  /** The results in order, or the first one that is missing. */
  lemma {:induction false} CollectExactly<R>(results: seq<Option<R>>)
    ensures match Collect(results)
      case All(values) => |values| == |results| && forall i | 0 <= i < |results| :: results[i] == Some(values[i])
      case Missing(i) => i < |results| && results[i] == None && forall j | 0 <= j < i :: results[j].Some?
  {
    if results != [] {
      var front := results[..|results| - 1];
      CollectExactly(front);
      assert forall i | 0 <= i < |front| :: front[i] == results[i];
    }
  }

  /** The outcome of a pool, whatever the order in which lints settle. */
  ghost predicate IsOutcome<R>(total: nat, concurrency: nat, lint: nat -> R, outcome: Collected<R>) {
    if total == 0 || concurrency >= 1 then outcome == All(seq(total, (i: nat) => lint(i))) else outcome == Missing(0)
  }

  lemma FinishedIsSettled<R(!new)>(t: State<R>, lint: nat -> R)
    requires Inv(t, lint) && Balanced(t) && AllFinished(t)
    ensures Settled(t.results) == (if |t.workers| == 0 then Settled(t.results) else t.total)
  {
    InFlightExactly(t, lint);
    BusyBound(t.workers);
  }

  lemma SettledIsOutcome<R(!new)>(t: State<R>, lint: nat -> R)
    requires Inv(t, lint) && Settled(t.results) == t.total
    ensures Collect(t.results) == All(seq(t.total, (i: nat) => lint(i)))
  {
    SettledBound(t.results);
    forall i: nat | i < t.total ensures t.results[i] == Some(lint(i)) {
      assert IndexOk(t, i, lint);
    }
    CollectAll(t.results, lint);
  }

  lemma NothingSettledIsMissing<R>(results: seq<Option<R>>)
    requires Settled(results) == 0 < |results|
    ensures Collect(results) == Missing(0)
  {
    NothingSettled(results);
    CollectExactly(results);
  }

  lemma {:induction false} NothingSettled<R>(results: seq<Option<R>>)
    requires Settled(results) == 0
    ensures forall i | 0 <= i < |results| :: results[i].None?
  {
    if results != [] {
      NothingSettled(results[..|results| - 1]);
      assert forall i | 0 <= i < |results| - 1 :: results[i] == results[..|results| - 1][i];
    }
  }

  lemma FinishedIsOutcome<R(!new)>(t: State<R>, lint: nat -> R)
    requires Inv(t, lint) && Balanced(t) && AllFinished(t)
    requires |t.workers| == 0 ==> Settled(t.results) == 0
    ensures IsOutcome(t.total, |t.workers|, lint, Collect(t.results))
  {
    FinishedIsSettled(t, lint);
    if Settled(t.results) == t.total {
      SettledIsOutcome(t, lint);
    } else {
      NothingSettledIsMissing(t.results);
    }
  }

  /** However the lints settle, a finished pool with a worker returns every target's result in
      order; without workers and with a target it is a missing result. */
  lemma ResultsAreScheduleFree<R(!new)>(total: nat, concurrency: nat, picks: seq<nat>, lint: nat -> R)
    requires ValidRun(Initial<R>(total, concurrency), picks, lint)
    requires AllFinished(Run(Initial<R>(total, concurrency), picks, lint))
    ensures IsOutcome(total, concurrency, lint, Collect(Run(Initial<R>(total, concurrency), picks, lint).results))
    ensures concurrency >= 1 ==> |picks| == total
  {
    InitialKeeps<R>(total, concurrency, lint);
    InitialBalances<R>(total, concurrency);
    RunKeeps(Initial<R>(total, concurrency), picks, lint);
    var t := Run(Initial<R>(total, concurrency), picks, lint);
    assert concurrency == 0 ==> picks == [];
    FinishedIsSettled(t, lint);
    FinishedIsOutcome(t, lint);
  }

  // ---------------------------------------------------------------------------
  // The pool in place
  // ---------------------------------------------------------------------------

  class Pool<R(!new)> {
    const total: nat
    const results: array<Option<R>>
    var next: nat
    var workers: seq<Worker>
    ghost var log: seq<nat>

    constructor (total: nat)
      ensures fresh(results) && Abstract() == Empty(total)
    {
      this.total := total;
      results := new Option<R>[total](_ => None);
      next, workers, log := 0, [], [];
      new;
      assert results[..] == seq(total, _ => None);
    }

    ghost function Abstract(): State<R>
      reads this, results
    {
      State(total, next, workers, results[..], log)
    }

    method Start()
      modifies this
      ensures Abstract() == Spawn(old(Abstract()))
    {
      log := Logged(Abstract());
      workers := workers + [if next < total then Linting(next) else Finished];
      next := next + 1;
    }

    /** Worker `w` resumes behind its await. */
    method Resume(w: nat, lint: nat -> R)
      requires Enabled(Abstract(), w)
      modifies this, results
      ensures Abstract() == Settle(old(Abstract()), w, lint)
    {
      log := Logged(Abstract());
      var index := workers[w].index;
      results[index] := Some(lint(index));
      workers := workers[w := if next < total then Linting(next) else Finished];
      next := next + 1;
    }

    /** Until `Promise.all` resolves, some lint settles. */
    method Drain(lint: nat -> R)
      requires Inv(Abstract(), lint) && Balanced(Abstract())
      modifies this, results
      ensures Inv(Abstract(), lint) && Balanced(Abstract()) && AllFinished(Abstract())
      ensures |workers| == old(|workers|)
      ensures |workers| == 0 ==> results[..] == old(results[..])
    {
      while exists w :: 0 <= w < |workers| && workers[w].Linting?
        invariant Inv(Abstract(), lint) && Balanced(Abstract()) && |workers| == old(|workers|)
        invariant |workers| == 0 ==> results[..] == old(results[..])
        decreases total - Settled(results[..])
      {
        var w: nat :| w < |workers| && workers[w].Linting?;
        assert WorkerOk(Abstract(), w);
        SettleKeeps(Abstract(), w, lint);
        SettleBalances(Abstract(), w, lint);
        SettledBound(Settle(Abstract(), w, lint).results);
        Resume(w, lint);
      }
    }
  }

  /** `runAll`. */
  method RunAll<R(!new)>(total: nat, concurrency: nat, lint: nat -> R) returns (outcome: Collected<R>)
    ensures IsOutcome(total, concurrency, lint, outcome)
  {
    var pool := new Pool<R>(total);
    for c := 0 to concurrency
      invariant pool.Abstract() == Initial(total, c)
      invariant fresh(pool) && fresh(pool.results)
    {
      pool.Start();
    }
    InitialKeeps<R>(total, concurrency, lint);
    InitialBalances<R>(total, concurrency);
    pool.Drain(lint);
    FinishedIsOutcome(pool.Abstract(), lint);
    outcome := Collect(pool.results[..]);
  }

  // ---------------------------------------------------------------------------
  // Concurrency
  // ---------------------------------------------------------------------------

  function DigitPrefix(s: string): string {
    if s != "" && IsDigit(s[0]) then [s[0]] + DigitPrefix(s[1..]) else ""
  }

  /** `Number.parseInt(raw, 10)`; None stands for NaN. */
  function ParseInt(raw: string): Option<int> {
    var s := TrimStart(raw);
    var negative := s != "" && s[0] == '-';
    var digits := DigitPrefix(if s != "" && (s[0] == '-' || s[0] == '+') then s[1..] else s);
    if digits == "" then None else Some((if negative then -1 else 1) * Number(digits))
  }

  /** `publintConcurrency`; None stands for the thrown error. The environment variable may be
      absent; integers beyond the safe range are rounded only to other unsafe ones. */
  function Concurrency(total: nat, raw: Option<string>, available: nat): Option<nat> {
    if total == 0 then Some(0)
    else if raw.Some? && raw.value != "" then
      match ParseInt(raw.value)
      case None => None
      case Some(parsed) =>
        if parsed < 1 || parsed > MAX_SAFE_INTEGER || Decimal(parsed) != raw.value then None
        else Some(Smaller(total, parsed))
    else Some(Smaller(total, available))
  }

  lemma {:induction false} PrefixOfDigits(s: string)
    requires Digits(s)
    ensures DigitPrefix(s) == s
  {
    if s != "" { PrefixOfDigits(s[1..]); }
  }

  lemma ParseDecimal(n: nat)
    ensures ParseInt(Decimal(n)) == Some(n)
  {
    DecimalDigits(n);
    PrefixOfDigits(Decimal(n));
    NumberOfDecimal(n);
    assert IsDigit(Decimal(n)[0]);
  }

  /** The numeral of a safe integer. */
  predicate IsSafeNumeral(raw: string) {
    IsNumeral(raw) && Number(raw) <= MAX_SAFE_INTEGER
  }

  lemma SafeNumeralExactly(raw: string)
    requires raw != ""
    ensures IsSafeNumeral(raw) <==>
      ParseInt(raw).Some? && 1 <= ParseInt(raw).value <= MAX_SAFE_INTEGER && Decimal(ParseInt(raw).value) == raw
    ensures IsSafeNumeral(raw) ==> ParseInt(raw) == Some(Number(raw))
  {
    if IsSafeNumeral(raw) {
      NumeralIsDecimal(raw);
      ParseDecimal(Number(raw));
    }
    if ParseInt(raw).Some? && 1 <= ParseInt(raw).value <= MAX_SAFE_INTEGER && Decimal(ParseInt(raw).value) == raw {
      DecimalIsNumeral(ParseInt(raw).value);
      NumberOfDecimal(ParseInt(raw).value);
    }
  }

  /** The lesser of two numbers. */
  predicate IsLesser(limit: nat, a: nat, b: nat) {
    limit <= a && limit <= b && (limit == a || limit == b)
  }

  /** Without targets there are no workers; a variable that is set must be the numeral of a safe positive
      integer; that or the processors are the limit, and never more than the targets. */
  lemma ConcurrencyExactly(total: nat, raw: Option<string>, available: nat)
    ensures var workers := Concurrency(total, raw, available);
      && (workers == None <==> total > 0 && raw.Some? && raw.value != "" && !IsSafeNumeral(raw.value))
      && (total == 0 ==> workers == Some(0))
      && (total > 0 && (raw == None || raw == Some("")) ==> workers.Some? && IsLesser(workers.value, total, available))
      && (total > 0 && raw.Some? && IsSafeNumeral(raw.value) ==>
            workers.Some? && IsLesser(workers.value, total, Number(raw.value)))
  {
    if raw.Some? && raw.value != "" { SafeNumeralExactly(raw.value); }
  }

  /** The pool as it is called: with a processor available, every accepted setting yields all results. */
  method LintAll<R(!new)>(total: nat, raw: Option<string>, available: nat, lint: nat -> R)
    returns (outcome: Option<Collected<R>>)
    requires available >= 1
    ensures outcome.None? <==> Concurrency(total, raw, available).None?
    ensures outcome.Some? ==> outcome.value == All(seq(total, (i: nat) => lint(i)))
  {
    var concurrency := Concurrency(total, raw, available);
    if concurrency.None? { return None; }
    var collected := RunAll(total, concurrency.value, lint);
    return Some(collected);
  }
}
