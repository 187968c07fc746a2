/** What holds of every schedule of the Runner protocol. */
module RunnerTheorems {
  import opened Wrappers
  import opened Report
  import opened Runner

  // ---------------------------------------------------------------- schedules

  lemma {:induction false} ExecConcat(s: Config, a: seq<Action>, b: seq<Action>)
    requires Legal(s, a) && Legal(Exec(s, a), b)
    ensures Legal(s, a + b) && Exec(s, a + b) == Exec(Exec(s, a), b)
    decreases |a|
  {
    if a == [] {
      assert a + b == b;
    } else {
      assert (a + b)[0] == a[0] && (a + b)[1..] == a[1..] + b;
      ExecConcat(Apply(s, a[0]), a[1..], b);
    }
  }

  /** The state after any schedule, from the start. */
  ghost predicate Reachable(checks: seq<Check>, capacity: nat, schedule: seq<Action>, s: Config) {
    capacity >= 1 && Legal(Initial(checks, capacity), schedule)
    && s == Exec(Initial(checks, capacity), schedule)
  }

  lemma ReachableInv(checks: seq<Check>, capacity: nat, schedule: seq<Action>, s: Config)
    requires Reachable(checks, capacity, schedule, s)
    ensures Inv(s) && s.checks == checks && s.capacity == capacity
  {
    InitialInv(checks, capacity);
    ExecInv(Initial(checks, capacity), schedule);
    ExecKeepsInput(Initial(checks, capacity), schedule);
  }

  lemma {:induction false} ExecKeepsInput(s: Config, schedule: seq<Action>)
    requires Legal(s, schedule)
    ensures Exec(s, schedule).checks == s.checks && Exec(s, schedule).capacity == s.capacity
    ensures s.ctxErr.Some? ==> Exec(s, schedule).ctxErr == s.ctxErr
    decreases |schedule|
  {
    if schedule != [] {
      ExecKeepsInput(Apply(s, schedule[0]), schedule[1..]);
    }
  }

  // ---------------------------------------------------------------- slots

  /**
   * In every interleaving no slot is written twice, every slot has been written exactly once when
   * Run returns, and the one write came from the slot's own worker (storing what its check
   * produced) or from the backfill (storing the cancellation result of that check).
   */
  lemma SlotsWrittenOnce(checks: seq<Check>, capacity: nat, schedule: seq<Action>, s: Config, j: nat)
    requires Reachable(checks, capacity, schedule, s) && j < |checks|
    ensures Inv(s)
    ensures Writes(s.log, j) <= 1
    ensures s.frozen ==> Writes(s.log, j) == 1
    ensures forall e :: e in s.log && e.Wrote? ==>
              e.slot < |checks| && s.results[e.slot] == e.res && (e.writer.ByWorker? ==> e.writer.worker == e.slot)
  {
    ReachableInv(checks, capacity, schedule, s);
    forall e | e in s.log && e.Wrote?
      ensures e.slot < |checks| && s.results[e.slot] == e.res && (e.writer.ByWorker? ==> e.writer.worker == e.slot)
    {
      var k :| 0 <= k < |s.log| && s.log[k] == e;
      assert GoodWrite(s, s.log[k]);
    }
  }

  /** Once frozen is set nothing any leaked worker or the dispatcher does changes the results. */
  lemma {:induction false} FrozenForever(s: Config, schedule: seq<Action>, j: nat)
    requires Inv(s) && s.frozen && Legal(s, schedule) && j < |s.checks|
    ensures Exec(s, schedule).results == s.results
    ensures Exec(s, schedule).completed == s.completed && Exec(s, schedule).frozen
    ensures Writes(Exec(s, schedule).log, j) == Writes(s.log, j)
    ensures s.main.Returned? ==> Exec(s, schedule).main == s.main
    decreases |schedule|
  {
    if schedule != [] {
      var a := schedule[0];
      var t := Apply(s, a);
      StepInv(s, a);
      assert t.results == s.results && t.completed == s.completed && t.frozen;
      if a.Spawn? || a.Begin? {
        WritesConcat(s.log, [t.log[|s.log|]], j);
        assert t.log == s.log + [t.log[|s.log|]];
      }
      FrozenForever(t, schedule[1..], j);
    }
  }

  /** The report of one check after another, in input order. */
  function Sequential(checks: seq<Check>): (r: seq<Result>)
    ensures |r| == |checks|
  {
    seq(|checks|, i requires 0 <= i < |checks| =>
      if checks[i].outcome.Exits? then NewCancelledResult(checks[i], None)
      else ExecuteCheck(checks[i], checks[i].outcome))
  }

  /** Who wrote, and what, when there was no cancellation. */
  lemma UncancelledWrite(s: Config, e: Event)
    requires Inv(s) && s.ctxErr.None? && e in s.log && e.Wrote?
    ensures e.slot < |s.checks|
    ensures e.writer.ByBackfill? <==> s.checks[e.slot].outcome.Exits?
    ensures e.res == Sequential(s.checks)[e.slot] == s.results[e.slot]
  {
    var k :| 0 <= k < |s.log| && s.log[k] == e;
    assert GoodWrite(s, s.log[k]);
    if e.writer.ByBackfill? {
      var err :| IsBackfill(s, e.slot, err, e.res);
    }
  }

  /**
   * Backfill without cancellation: for a run whose context was never cancelled, the backfill wrote
   * slot j exactly when check j exits its goroutine (runtime.Goexit). Only there does
   * newCancelledResult see a nil error.
   */
  lemma UncancelledBackfill(checks: seq<Check>, capacity: nat, schedule: seq<Action>, s: Config, j: nat)
    requires Reachable(checks, capacity, schedule, s) && s.ctxErr.None? && s.frozen && j < |checks|
    ensures (exists e :: e in s.log && e.Wrote? && e.slot == j && e.writer.ByBackfill?)
       <==> checks[j].outcome.Exits?
    ensures |s.results| == |checks| && s.results[j] == Sequential(checks)[j]
  {
    ReachableInv(checks, capacity, schedule, s);
    WriteExists(s.log, j);
    var k :| 0 <= k < |s.log| && s.log[k].Wrote? && s.log[k].slot == j;
    assert s.log[k] in s.log;
    UncancelledWrite(s, s.log[k]);
    forall e | e in s.log && e.Wrote? && e.slot == j
      ensures e.writer.ByBackfill? <==> checks[j].outcome.Exits?
    {
      UncancelledWrite(s, e);
    }
  }

  lemma {:induction false} WriteExists(log: seq<Event>, j: nat)
    requires Writes(log, j) > 0
    ensures exists k :: 0 <= k < |log| && log[k].Wrote? && log[k].slot == j
  {
    if log[0].Wrote? && log[0].slot == j {
    } else {
      WriteExists(log[1..], j);
      var k :| 0 <= k < |log[1..]| && log[1..][k].Wrote? && log[1..][k].slot == j;
      assert log[k + 1] == log[1..][k];
    }
  }

  /** Every backfilled slot carries the cancellation result, with the context's error when there is one. */
  lemma BackfillImpliesCancelOrExit(checks: seq<Check>, capacity: nat, schedule: seq<Action>, s: Config, e: Event)
    requires Reachable(checks, capacity, schedule, s)
    requires e in s.log && e.Wrote? && e.writer.ByBackfill?
    ensures e.slot < |checks|
    ensures (s.ctxErr.Some? && e.res == NewCancelledResult(checks[e.slot], s.ctxErr))
         || (checks[e.slot].outcome.Exits? && e.res == NewCancelledResult(checks[e.slot], None))
  {
    ReachableInv(checks, capacity, schedule, s);
    var k :| 0 <= k < |s.log| && s.log[k] == e;
    assert GoodWrite(s, s.log[k]);
    var err :| IsBackfill(s, e.slot, err, e.res);
  }

  /** r carries the identity of c. */
  predicate Identified(c: Check, r: Result) {
    r.checkId == c.id && r.title == c.title && r.severity == c.severity
  }

  /** r is what the check returned, with the identity fields it left empty filled in. */
  predicate Filled(c: Check, own: Result, r: Result) {
    && r.state == own.state && r.detail == own.detail && r.err == own.err
    && (if own.checkId == "" then r.checkId == c.id else r.checkId == own.checkId)
    && (if own.title == "" then r.title == c.title else r.title == own.title)
    && (if own.severity == "" then r.severity == c.severity else r.severity == own.severity)
  }

  /**
   * What a frozen report may say about c, case by case: its worker's outcome o, or the error of the
   * context. Exits leaves only the last two.
   */
  predicate Complete(c: Check, o: Option<Outcome>, ctxErr: Option<string>, r: Result) {
    || (o.Some? && o.value.Returns? && Filled(c, o.value.res, r))
    || (o.Some? && o.value.Skips? && Identified(c, r) && r.state.Skip? && r.detail == o.value.reason && r.err == "")
    || (o.Some? && o.value.Panics? && Identified(c, r) && r.state.Error?
        && r.detail == "check panicked: " + o.value.value && r.err == "panic: " + o.value.value)
    || (ctxErr.Some? && Identified(c, r) && r.state.Error?
        && r.detail == "runner abandoned check: " + ctxErr.value
        && r.err == "check: parent context canceled: " + ctxErr.value)
    || (o == Some(Exits) && Identified(c, r) && r.state.Error?
        && r.detail == "runner abandoned check: <nil>" && r.err == "context canceled")
  }

  /**
   * However the run went (cancelled or not, checks leaked, skipped, panicking or exiting), every
   * slot of the frozen report says what happened to the check at its index, and nothing else.
   */
  lemma EverySlotComplete(checks: seq<Check>, capacity: nat, schedule: seq<Action>, s: Config, j: nat)
    requires Reachable(checks, capacity, schedule, s) && s.frozen && j < |checks|
    ensures |s.results| == |s.produced| == |checks|
    ensures Complete(checks[j], s.produced[j], s.ctxErr, s.results[j])
  {
    hide ExecuteCheck, NewCancelledResult, Complete;
    ReachableInv(checks, capacity, schedule, s);
    WriteExists(s.log, j);
    var k :| 0 <= k < |s.log| && s.log[k].Wrote? && s.log[k].slot == j;
    var e := s.log[k];
    assert GoodWrite(s, e);
    if e.writer.ByBackfill? {
      var err :| IsBackfill(s, j, err, e.res);
      AbandonedComplete(checks[j], s.produced[j], s.ctxErr, err);
    } else {
      ExecutedComplete(checks[j], s.produced[j].value, s.ctxErr);
    }
  }

  lemma ExecutedComplete(c: Check, o: Outcome, ctxErr: Option<string>)
    requires !o.Exits?
    ensures Complete(c, Some(o), ctxErr, ExecuteCheck(c, o))
  {
  }

  lemma AbandonedComplete(c: Check, o: Option<Outcome>, ctxErr: Option<string>, err: Option<string>)
    requires err.Some? ==> ctxErr == err
    requires err.None? ==> o == Some(Exits)
    ensures Complete(c, o, ctxErr, NewCancelledResult(c, err))
  {
  }

  /**
   * A check the cancellation reaches while it runs may end in any way, and if that is before the freeze
   * its own result stands.
   */
  lemma CancelledCheckEndsAnyhow(checks: seq<Check>, capacity: nat, err: string, o: Outcome)
      returns (schedule: seq<Action>, s: Config)
    requires checks != [] && capacity >= 1 && !o.Exits?
    ensures Reachable(checks, capacity, schedule, s) && s.ctxErr == Some(err) && s.main.Selecting?
    ensures |s.results| == |s.completed| == |checks| && s.completed[0] && s.results[0] == ExecuteCheck(checks[0], o)
  {
    hide ExecuteCheck;
    var s0 := Initial(checks, capacity);
    var s1 := Apply(Apply(Apply(s0, Acquire), Spawn), Begin(0));
    var s2 := Apply(s1, Cancel(err));
    assert s2.workers[0].Running?;
    var s3 := Apply(s2, Work(0, o));
    s := Apply(s3, Record(0));
    schedule := [Acquire, Spawn, Begin(0), Cancel(err), Work(0, o), Record(0)];
    LegalSix(s0, Acquire, Spawn, Begin(0), Cancel(err), Work(0, o), Record(0));
  }

  lemma LegalSix(s: Config, a: Action, b: Action, c: Action, d: Action, e: Action, f: Action)
    requires Enabled(s, a)
    requires var t := Apply(s, a);
             Enabled(t, b) && Enabled(Apply(t, b), c) && Enabled(Apply(Apply(t, b), c), d)
    requires var u := Apply(Apply(Apply(Apply(s, a), b), c), d); Enabled(u, e) && Enabled(Apply(u, e), f)
    ensures Legal(s, [a, b, c, d, e, f])
    ensures Exec(s, [a, b, c, d, e, f]) == Apply(Apply(Apply(Apply(Apply(Apply(s, a), b), c), d), e), f)
  {
    hide Enabled, Apply;
    LegalThree(s, a, b, c);
    LegalThree(Apply(Apply(Apply(s, a), b), c), d, e, f);
    ExecConcat(s, [a, b, c], [d, e, f]);
    assert [a, b, c] + [d, e, f] == [a, b, c, d, e, f];
  }

  lemma LegalThree(s: Config, a: Action, b: Action, c: Action)
    requires Enabled(s, a) && Enabled(Apply(s, a), b) && Enabled(Apply(Apply(s, a), b), c)
    ensures Legal(s, [a, b, c]) && Exec(s, [a, b, c]) == Apply(Apply(Apply(s, a), b), c)
  {
    hide Enabled, Apply;
    var t := Apply(Apply(s, a), b);
    assert [a, b, c][1..] == [b, c] && [b, c][1..] == [c] && [c][1..] == [];
    assert Legal(Apply(t, c), []) && Legal(t, [c]) && Exec(t, [c]) == Apply(t, c);
    assert Legal(Apply(s, a), [b, c]) && Exec(Apply(s, a), [b, c]) == Apply(t, c);
  }

  /** Under every schedule a run that is not cancelled returns exactly the sequential report. */
  lemma UncancelledRunIsSequential(checks: seq<Check>, capacity: nat, schedule: seq<Action>, s: Config)
    requires Reachable(checks, capacity, schedule, s) && s.ctxErr.None? && s.main.Returned?
    ensures s.results == Sequential(checks)
    ensures s.main.summary == SummaryOf(Sequential(checks))
  {
    ReachableInv(checks, capacity, schedule, s);
    forall j | 0 <= j < |checks| ensures s.results[j] == Sequential(checks)[j] {
      UncancelledBackfill(checks, capacity, schedule, s, j);
    }
    assert s.results == Sequential(checks);
  }

  /** A returned run with a backfilled required slot exits 2 or 4, and no verdict calls it a success. */
  lemma BackfilledRequiredSlotExits(checks: seq<Check>, capacity: nat, schedule: seq<Action>, s: Config, e: Event)
    requires Reachable(checks, capacity, schedule, s) && s.main.Returned?
    requires e in s.log && e.Wrote? && e.writer.ByBackfill? && e.slot < |checks|
    requires IsRequired(checks[e.slot].severity)
    ensures ComputeExit(s.main.summary) == EXIT_MITIGATION_GAP || ComputeExit(s.main.summary) == EXIT_CHECK_ERROR
    ensures !ExecutionSuccessful(s.main.summary)
  {
    SlotsWrittenOnce(checks, capacity, schedule, s, e.slot);
    BackfillImpliesCancelOrExit(checks, capacity, schedule, s, e);
    assert s.results[e.slot] in s.results;
    CountPositive(s.results, Error, true);
  }

  // ---------------------------------------------------------------- the semaphore

  /**
   * Tokens held are the workers between dispatch and release, plus the one acquired for a worker
   * about to be spawned; they never exceed the capacity, and the dispatched checks are a prefix.
   */
  lemma TokensBounded(checks: seq<Check>, capacity: nat, schedule: seq<Action>, s: Config)
    requires Reachable(checks, capacity, schedule, s)
    ensures s.tokens == Holders(s.workers) + (if s.disp.AtSpawn? then 1 else 0)
    ensures s.tokens <= capacity
    ensures |s.workers| == |checks|
    ensures forall j :: 0 <= j < |checks| ==> (!s.workers[j].NotStarted? <==> j < s.next)
  {
    ReachableInv(checks, capacity, schedule, s);
  }

  /**
   * With concurrency 1, whenever a check is about to start, every earlier check that did not exit
   * its goroutine has its result written: workers run strictly one after another.
   */
  lemma SequentialAtCapacityOne(checks: seq<Check>, schedule: seq<Action>, s: Config, i: nat)
    requires Reachable(checks, 1, schedule, s) && s.disp.AtSpawn? && i < s.next
    ensures Inv(s)
    ensures s.workers[i].Released? || s.workers[i].Gone?
    ensures s.produced[i].Some? && (s.produced[i].value.Exits? || Writes(s.log, i) == 1)
  {
    ReachableInv(checks, 1, schedule, s);
    CountsPositive(s.workers);
    assert !HoldsToken(s.workers[i]);
    assert Past(s.workers[i]);
  }

  // ---------------------------------------------------------------- progress

  function WorkerRank(w: Worker): nat {
    match w
    case NotStarted => 6
    case Spawned => 5
    case Running => 4
    case Holding(_) => 3
    case Recorded => 2
    case Released => 1
    case Gone => 0
  }

  function WorkersRank(ws: seq<Worker>): nat {
    if ws == [] then 0 else WorkerRank(ws[0]) + WorkersRank(ws[1..])
  }

  /** How many steps the protocol can still take. */
  function Rank(s: Config): nat
    requires s.next <= |s.workers|
  {
    (match s.disp
     case AtSelect => 2 * (|s.workers| - s.next) + 2
     case AtSpawn => 2 * (|s.workers| - s.next) + 1
     case Waiting => 2
     case Closing => 1
     case Finished => 0)
    + WorkersRank(s.workers)
    + (if s.ctxErr.None? then 1 else 0)
    + (match s.main
       case Selecting => 3
       case Freezing => 2
       case Summing => 1
       case Returned(_) => 0)
  }

  lemma {:induction false} WorkersRankUpdate(ws: seq<Worker>, i: nat, w: Worker)
    requires i < |ws|
    ensures WorkersRank(ws[i := w]) + WorkerRank(ws[i]) == WorkersRank(ws) + WorkerRank(w)
  {
    if i == 0 {
      assert ws[i := w][1..] == ws[1..];
    } else {
      assert ws[i := w][1..] == ws[1..][i - 1 := w];
      WorkersRankUpdate(ws[1..], i - 1, w);
    }
  }

  lemma WorkerRankDrops(s: Config, i: nat, a: Action)
    requires Inv(s) && Enabled(s, a)
    requires a == Begin(i) || a == Record(i) || a == Release(i) || a == Leave(i) || (a.Work? && a.i == i)
    ensures Rank(Apply(s, a)) < Rank(s)
  {
    hide PrefixDispatched, TokensBalance, MainConsistent, ProducedConsistent, SlotsConsistent, LogConsistent;
    hide WorkersRank, ExecuteCheck;
    WorkersRankUpdate(s.workers, i, Apply(s, a).workers[i]);
  }

  lemma SpawnRankDrops(s: Config)
    requires Inv(s) && Enabled(s, Spawn)
    ensures Sizes(Apply(s, Spawn)) && Rank(Apply(s, Spawn)) < Rank(s)
  {
    hide TokensBalance, MainConsistent, ProducedConsistent, SlotsConsistent, LogConsistent, WorkersRank;
    WorkersRankUpdate(s.workers, s.next, Spawned);
  }

  /** Every step of every process makes progress. */
  lemma RankDrops(s: Config, a: Action)
    requires Inv(s) && Enabled(s, a)
    ensures Sizes(Apply(s, a)) && Rank(Apply(s, a)) < Rank(s)
  {
    hide TokensBalance, ProducedConsistent, SlotsConsistent, LogConsistent, WorkersRank;
    match a
    case Spawn => SpawnRankDrops(s);
    case Begin(i) => WorkerRankDrops(s, i, a);
    case Work(i, o) => WorkerRankDrops(s, i, a);
    case Record(i) => WorkerRankDrops(s, i, a);
    case Release(i) => WorkerRankDrops(s, i, a);
    case Leave(i) => WorkerRankDrops(s, i, a);
    case _ =>
  }

  lemma {:induction false} ScheduleBounded(s: Config, schedule: seq<Action>)
    requires Inv(s) && Legal(s, schedule)
    ensures Inv(Exec(s, schedule))
    ensures |schedule| + Rank(Exec(s, schedule)) <= Rank(s)
    decreases |schedule|
  {
    if schedule != [] {
      RankDrops(s, schedule[0]);
      StepInv(s, schedule[0]);
      ScheduleBounded(Apply(s, schedule[0]), schedule[1..]);
    }
  }

  lemma {:induction false} IdleRank(n: nat)
    ensures WorkersRank(seq(n, _ => NotStarted)) == 6 * n
  {
    if n > 0 {
      assert seq(n, _ => NotStarted)[1..] == seq(n - 1, _ => NotStarted);
      IdleRank(n - 1);
    }
  }

  /** No schedule is longer than 8n + 6 steps: the protocol cannot run for ever. */
  lemma EveryScheduleEnds(checks: seq<Check>, capacity: nat, schedule: seq<Action>, s: Config)
    requires Reachable(checks, capacity, schedule, s)
    ensures |schedule| <= 8 * |checks| + 6
  {
    InitialInv(checks, capacity);
    ScheduleBounded(Initial(checks, capacity), schedule);
    IdleRank(|checks|);
  }

  /** The next step of a worker that is neither waiting to start nor gone. */
  function WorkerStep(s: Config, i: nat): Action
    requires Sizes(s) && i < |s.workers|
  {
    match s.workers[i]
    case Spawned => Begin(i)
    case Running => Work(i, s.checks[i].outcome)
    case Holding(_) => Record(i)
    case Recorded => Release(i)
    case _ => Leave(i)
  }

  lemma LiveWorkerSteps(s: Config, i: nat)
    requires Inv(s) && i < |s.workers| && IsLive(s.workers[i])
    ensures Enabled(s, WorkerStep(s, i))
  {
    CountsPositive(s.workers);
    if HoldsToken(s.workers[i]) {
      assert Holders(s.workers) > 0;
    }
    assert Live(s.workers) > 0;
  }

  /**
   * No reachable state before the return is stuck: some process other than the canceller can step,
   * and the step is a check's own code only when a started check has not ended yet. In particular a
   * dispatcher blocked on a full semaphore always has a live token holder.
   */
  lemma NoDeadlock(s: Config) returns (a: Action)
    requires Inv(s) && !s.main.Returned?
    ensures Enabled(s, a) && !a.Cancel?
    ensures a.Work? ==> s.main.Selecting? && s.ctxErr.None? && s.workers[a.i].Running?
  {
    CountsPositive(s.workers);
    if s.main.Freezing? {
      a := Freeze;
    } else if s.main.Summing? {
      a := Finish;
    } else if s.doneClosed {
      a := SeeDone;
    } else if s.ctxErr.Some? {
      a := SeeCancel;
    } else if s.disp.Closing? {
      a := CloseDone;
    } else if s.disp.AtSpawn? {
      a := Spawn;
    } else if s.disp.AtSelect? && s.tokens < s.capacity {
      a := Acquire;
    } else if s.disp.Waiting? && s.wg == 0 {
      a := WaitDone;
    } else {
      assert Live(s.workers) > 0 by {
        if s.disp.AtSelect? {
          var h :| 0 <= h < |s.workers| && HoldsToken(s.workers[h]);
          assert IsLive(s.workers[h]);
        }
      }
      var i :| 0 <= i < |s.workers| && IsLive(s.workers[i]);
      LiveWorkerSteps(s, i);
      a := WorkerStep(s, i);
    }
  }

  /** A schedule that can only be extended by a cancellation has returned. */
  lemma MaximalScheduleReturns(checks: seq<Check>, capacity: nat, schedule: seq<Action>, s: Config)
    requires Reachable(checks, capacity, schedule, s)
    requires forall a :: Enabled(s, a) ==> a.Cancel?
    ensures s.main.Returned?
  {
    ReachableInv(checks, capacity, schedule, s);
    if !s.main.Returned? {
      var a := NoDeadlock(s);
    }
  }

  /** From every reachable state some schedule without a cancellation ends in the return. */
  lemma {:induction false} RunsToReturn(s: Config) returns (schedule: seq<Action>)
    requires Inv(s)
    ensures Legal(s, schedule) && Exec(s, schedule).main.Returned? && Exec(s, schedule).ctxErr == s.ctxErr
    decreases Rank(s)
  {
    if s.main.Returned? {
      schedule := [];
    } else {
      var a := NoDeadlock(s);
      StepInv(s, a);
      RankDrops(s, a);
      hide Inv, Rank;
      var rest := RunsToReturn(Apply(s, a));
      schedule := [a] + rest;
      assert schedule[1..] == rest;
    }
  }

  /** Every sequential report is the report of some uncancelled run: exited checks and nil errors included. */
  lemma UncancelledRunExists(checks: seq<Check>, capacity: nat) returns (schedule: seq<Action>, s: Config)
    requires capacity >= 1
    ensures Reachable(checks, capacity, schedule, s) && s.ctxErr.None? && s.main.Returned?
    ensures s.results == Sequential(checks)
  {
    InitialInv(checks, capacity);
    hide Inv, Sequential;
    schedule := RunsToReturn(Initial(checks, capacity));
    s := Exec(Initial(checks, capacity), schedule);
    UncancelledRunIsSequential(checks, capacity, schedule, s);
  }

  function MainSteps(s: Config): seq<Action> {
    match s.main
    case Selecting => [SeeCancel, Freeze, Finish]
    case Freezing => [Freeze, Finish]
    case Summing => [Finish]
    case Returned(_) => []
  }

  /**
   * Once the context is cancelled Run returns by its own steps alone, at most three of them, from
   * any reachable state: however many checks never end.
   */
  lemma CancelledRunReturns(s: Config)
    requires Inv(s) && s.ctxErr.Some?
    ensures Legal(s, MainSteps(s)) && |MainSteps(s)| <= 3
    ensures ReturnedAlone(s, Exec(s, MainSteps(s)))
  {
    hide Inv, Apply, ReturnedAlone, Exec, Legal;
    match s.main
    case Returned(_) => NothingLeft(s);
    case Summing => MainFinish(s);
    case Freezing => MainFreeze(s);
    case Selecting => MainCancel(s);
  }

  /** Run returned, and neither the dispatcher nor a worker moved. */
  ghost predicate ReturnedAlone(s: Config, t: Config) {
    && t.main.Returned?
    && t.disp == s.disp && t.next == s.next && t.workers == s.workers
    && t.tokens == s.tokens && t.capacity == s.capacity
  }

  lemma NothingLeft(s: Config)
    requires s.main.Returned?
    ensures Legal(s, []) && ReturnedAlone(s, Exec(s, []))
  {
  }

  lemma MainFinish(s: Config)
    requires s.main.Summing?
    ensures Legal(s, [Finish]) && ReturnedAlone(s, Exec(s, [Finish]))
  {
    assert [Finish][1..] == [];
    NothingLeft(Apply(s, Finish));
  }

  lemma MainFreeze(s: Config)
    requires Inv(s) && s.main.Freezing?
    ensures Legal(s, [Freeze, Finish]) && ReturnedAlone(s, Exec(s, [Freeze, Finish]))
  {
    InvSizes(s);
    hide Inv, BackfillEvents, Backfilled;
    MainFinish(Apply(s, Freeze));
    assert [Freeze, Finish][1..] == [Finish];
  }

  lemma MainCancel(s: Config)
    requires Inv(s) && s.ctxErr.Some? && s.main.Selecting?
    ensures Legal(s, [SeeCancel, Freeze, Finish]) && ReturnedAlone(s, Exec(s, [SeeCancel, Freeze, Finish]))
  {
    hide Inv;
    StepInv(s, SeeCancel);
    MainFreeze(Apply(s, SeeCancel));
    assert [SeeCancel, Freeze, Finish][1..] == [Freeze, Finish];
  }

  lemma InvSizes(s: Config)
    requires Inv(s)
    ensures Sizes(s)
  {
  }
}
