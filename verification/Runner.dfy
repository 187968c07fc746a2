/**
 * The check Runner as a protocol: one dispatcher blocked on a bounded semaphore, one worker per
 * dispatched check, an external cancel, and Run itself, which selects on completion or
 * cancellation, freezes the results and backfills. Every channel or mutex operation is one Action;
 * a schedule is any sequence of enabled actions, so every interleaving is a schedule.
 */
module Runner {
  import opened Wrappers
  import opened Report

  // ---------------------------------------------------------------- checks and results

  /**
   * How a check's Applicable and Run end. Exits is runtime.Goexit: the goroutine unwinds, only its
   * deferred calls run.
   */
  datatype Outcome = Skips(reason: string) | Returns(res: Result) | Panics(value: string) | Exits

  datatype Check = Check(id: string, title: string, severity: Severity, outcome: Outcome)

  const ZERO_RESULT := Result("", "", "", Unrecognised(""), "", "")

  /** executeCheck, once the check has ended with outcome o. */
  function ExecuteCheck(c: Check, o: Outcome): Result
    requires !o.Exits?
  {
    match o
    case Skips(reason) => Result(c.id, c.title, c.severity, Skip, reason, "")
    case Panics(value) =>
      Result(c.id, c.title, c.severity, Error, "check panicked: " + value, "panic: " + value)
    case Returns(res) =>
      res.(checkId := if res.checkId == "" then c.id else res.checkId,
           title := if res.title == "" then c.title else res.title,
           severity := if res.severity == "" then c.severity else res.severity)
  }

  function NewCancelledResult(c: Check, parentErr: Option<string>): Result {
    Result(c.id, c.title, c.severity, Error,
           "runner abandoned check: " + (if parentErr.Some? then parentErr.value else "<nil>"),
           if parentErr.Some? then "check: parent context canceled: " + parentErr.value
           else "context canceled")
  }

  function Capacity(concurrency: int, numCPU: nat): nat
    requires numCPU >= 1
    ensures Capacity(concurrency, numCPU) >= 1
  {
    if concurrency <= 0 then numCPU else concurrency
  }

  // ---------------------------------------------------------------- the state

  datatype Dispatcher = AtSelect | AtSpawn | Waiting | Closing | Finished

  // Spawned: the goroutine exists, its check has not begun. Holding: the check has returned, the
  // mutex is not yet taken. Recorded: before the deferred token release. Released: before the
  // deferred wg.Done.
  datatype Worker = NotStarted | Spawned | Running | Holding(res: Result) | Recorded | Released | Gone

  datatype Main = Selecting | Freezing | Summing | Returned(summary: Summary)

  datatype Writer = ByWorker(worker: nat) | ByBackfill

  // Dispatched: the go statement. Started: the check's own code begins.
  datatype Event = Dispatched(check: nat) | Started(check: nat) | Wrote(slot: nat, writer: Writer, res: Result)

  datatype Config = Config(
    checks: seq<Check>, capacity: nat,
    ctxErr: Option<string>, tokens: nat, wg: nat, doneClosed: bool,
    disp: Dispatcher, next: nat, workers: seq<Worker>, produced: seq<Option<Outcome>>,
    results: seq<Result>, completed: seq<bool>, frozen: bool, main: Main,
    log: seq<Event>)

  function Initial(checks: seq<Check>, capacity: nat): Config {
    var n := |checks|;
    Config(checks, capacity, None, 0, 0, false,
           if n == 0 then Waiting else AtSelect, 0, seq(n, _ => NotStarted), seq(n, _ => None),
           seq(n, _ => ZERO_RESULT), seq(n, _ => false), false, Selecting, [])
  }

  // ---------------------------------------------------------------- the steps

  datatype Action =
    | Acquire            // dispatcher: sem <- struct{}{}
    | Abandon            // dispatcher: <-ctx.Done() while waiting for a slot
    | Spawn              // dispatcher: wg.Add(1); go runOne
    | WaitDone           // dispatcher: wg.Wait() returns
    | CloseDone          // dispatcher: close(done)
    | Begin(i: nat)      // worker i: executeCheck begins
    | Work(i: nat, o: Outcome)  // worker i: executeCheck ends
    | Record(i: nat)     // worker i: the critical section
    | Release(i: nat)    // worker i: <-sem
    | Leave(i: nat)      // worker i: wg.Done()
    | Cancel(err: string)
    | SeeDone            // Run: case <-done
    | SeeCancel          // Run: case <-ctx.Done()
    | Freeze             // Run: the freeze and backfill critical section
    | Finish             // Run: NewSummary and return

  predicate Enabled(s: Config, a: Action) {
    match a
    case Acquire => s.disp.AtSelect? && s.tokens < s.capacity
    case Abandon => s.disp.AtSelect? && s.ctxErr.Some?
    case Spawn => s.disp.AtSpawn? && s.next < |s.workers|
    case WaitDone => s.disp.Waiting? && s.wg == 0
    case CloseDone => s.disp.Closing?
    case Begin(i) => i < |s.workers| && s.workers[i].Spawned?
    case Work(i, o) =>
      // Until the context is done a check ends the way it ends; afterwards it may end any way.
      i < |s.workers| == |s.produced| == |s.checks| && s.workers[i].Running?
      && (s.ctxErr.None? ==> o == s.checks[i].outcome)
    case Record(i) => i < |s.workers| == |s.completed| == |s.results| && s.workers[i].Holding?
    case Release(i) => i < |s.workers| && s.workers[i].Recorded? && s.tokens > 0
    case Leave(i) => i < |s.workers| && s.workers[i].Released? && s.wg > 0
    case Cancel(_) => s.ctxErr.None?
    case SeeDone => s.main.Selecting? && s.doneClosed
    case SeeCancel => s.main.Selecting? && s.ctxErr.Some?
    case Freeze => s.main.Freezing? && |s.results| == |s.completed| == |s.checks|
    case Finish => s.main.Summing?
  }

  function Backfilled(checks: seq<Check>, completed: seq<bool>, results: seq<Result>, err: Option<string>):
    (r: seq<Result>)
    requires |checks| == |completed| == |results|
    ensures |r| == |checks|
  {
    seq(|checks|, i requires 0 <= i < |checks| =>
      if completed[i] then results[i] else NewCancelledResult(checks[i], err))
  }

  /** The writes the backfill loop makes from slot i on. */
  function BackfillEvents(checks: seq<Check>, completed: seq<bool>, err: Option<string>, i: nat): seq<Event>
    requires |checks| == |completed|
    decreases |checks| - i
  {
    if i >= |checks| then []
    else
      (if completed[i] then [] else [Wrote(i, ByBackfill, NewCancelledResult(checks[i], err))])
      + BackfillEvents(checks, completed, err, i + 1)
  }

  function Apply(s: Config, a: Action): Config
    requires Enabled(s, a)
  {
    match a
    case Acquire => s.(tokens := s.tokens + 1, disp := AtSpawn)
    case Abandon => s.(disp := Waiting)
    case Spawn =>
      s.(wg := s.wg + 1, workers := s.workers[s.next := Spawned], next := s.next + 1,
         disp := if s.next + 1 == |s.workers| then Waiting else AtSelect,
         log := s.log + [Dispatched(s.next)])
    case WaitDone => s.(disp := Closing)
    case CloseDone => s.(disp := Finished, doneClosed := true)
    case Begin(i) => s.(workers := s.workers[i := Running], log := s.log + [Started(i)])
    case Work(i, o) =>
      s.(produced := s.produced[i := Some(o)],
         workers := s.workers[i := if o.Exits? then Recorded else Holding(ExecuteCheck(s.checks[i], o))])
    case Record(i) =>
      var t := s.(workers := s.workers[i := Recorded]);
      if !s.frozen && !s.completed[i] then
        t.(results := s.results[i := s.workers[i].res], completed := s.completed[i := true],
           log := s.log + [Wrote(i, ByWorker(i), s.workers[i].res)])
      else t
    case Release(i) => s.(tokens := s.tokens - 1, workers := s.workers[i := Released])
    case Leave(i) => s.(wg := s.wg - 1, workers := s.workers[i := Gone])
    case Cancel(e) => s.(ctxErr := Some(e))
    case SeeDone => s.(main := Freezing)
    case SeeCancel => s.(main := Freezing)
    case Freeze =>
      s.(frozen := true, results := Backfilled(s.checks, s.completed, s.results, s.ctxErr),
         completed := seq(|s.completed|, _ => true), main := Summing,
         log := s.log + BackfillEvents(s.checks, s.completed, s.ctxErr, 0))
    case Finish => s.(main := Returned(SummaryOf(s.results)))
  }

  /** Every action of the schedule is enabled when its turn comes. */
  predicate Legal(s: Config, schedule: seq<Action>)
    decreases |schedule|
  {
    schedule == [] || (Enabled(s, schedule[0]) && Legal(Apply(s, schedule[0]), schedule[1..]))
  }

  function Exec(s: Config, schedule: seq<Action>): Config
    requires Legal(s, schedule)
    decreases |schedule|
  {
    if schedule == [] then s else Exec(Apply(s, schedule[0]), schedule[1..])
  }

  // ---------------------------------------------------------------- counting workers

  predicate HoldsToken(w: Worker) { w.Spawned? || w.Running? || w.Holding? || w.Recorded? }

  predicate IsLive(w: Worker) { HoldsToken(w) || w.Released? }

  function Holders(ws: seq<Worker>): nat {
    if ws == [] then 0 else (if HoldsToken(ws[0]) then 1 else 0) + Holders(ws[1..])
  }

  function Live(ws: seq<Worker>): nat {
    if ws == [] then 0 else (if IsLive(ws[0]) then 1 else 0) + Live(ws[1..])
  }

  lemma {:induction false} CountsUpdate(ws: seq<Worker>, i: nat, w: Worker)
    requires i < |ws|
    ensures Holders(ws[i := w]) + (if HoldsToken(ws[i]) then 1 else 0)
         == Holders(ws) + (if HoldsToken(w) then 1 else 0)
    ensures Live(ws[i := w]) + (if IsLive(ws[i]) then 1 else 0)
         == Live(ws) + (if IsLive(w) then 1 else 0)
  {
    if i == 0 {
      assert ws[i := w][1..] == ws[1..];
    } else {
      assert ws[i := w][1..] == ws[1..][i - 1 := w];
      CountsUpdate(ws[1..], i - 1, w);
    }
  }

  lemma {:induction false} CountsPositive(ws: seq<Worker>)
    ensures Holders(ws) > 0 <==> exists i :: 0 <= i < |ws| && HoldsToken(ws[i])
    ensures Live(ws) > 0 <==> exists i :: 0 <= i < |ws| && IsLive(ws[i])
  {
    if ws != [] {
      var t := ws[1..];
      CountsPositive(t);
      assert forall i :: 1 <= i < |ws| ==> ws[i] == t[i - 1];
      if Holders(t) > 0 {
        var i :| 0 <= i < |t| && HoldsToken(t[i]);
        assert HoldsToken(ws[i + 1]);
      }
      if Live(t) > 0 {
        var i :| 0 <= i < |t| && IsLive(t[i]);
        assert IsLive(ws[i + 1]);
      }
    }
  }

  // ---------------------------------------------------------------- the invariant

  ghost predicate Sizes(s: Config) {
    && s.capacity >= 1
    && |s.checks| == |s.workers| == |s.produced| == |s.results| == |s.completed|
    && s.next <= |s.checks|
  }

  /** Dispatched checks are exactly a prefix of the input. */
  ghost predicate PrefixDispatched(s: Config)
    requires Sizes(s)
  {
    && (forall j :: 0 <= j < |s.workers| ==> (s.workers[j].NotStarted? <==> j >= s.next))
    && (s.disp.AtSelect? || s.disp.AtSpawn? ==> s.next < |s.checks|)
    && (s.disp.Waiting? || s.disp.Closing? || s.disp.Finished? ==> s.next == |s.checks| || s.ctxErr.Some?)
  }

  ghost predicate TokensBalance(s: Config) {
    && s.tokens == Holders(s.workers) + (if s.disp.AtSpawn? then 1 else 0)
    && s.tokens <= s.capacity
    && s.wg == Live(s.workers)
    && (s.disp.Closing? || s.disp.Finished? ==> s.wg == 0)
    && (s.doneClosed <==> s.disp.Finished?)
  }

  ghost predicate MainConsistent(s: Config) {
    && (s.frozen <==> s.main.Summing? || s.main.Returned?)
    && (!s.main.Selecting? ==> s.doneClosed || s.ctxErr.Some?)
    && (s.main.Returned? ==> s.main.summary == SummaryOf(s.results))
  }

  /** What each check produced, and what its worker carries. */
  ghost predicate ProducedConsistent(s: Config)
    requires Sizes(s)
  {
    forall j :: 0 <= j < |s.workers| ==>
      && (s.produced[j].None? <==> s.workers[j].NotStarted? || s.workers[j].Spawned? || s.workers[j].Running?)
      && (s.produced[j].Some? && s.ctxErr.None? ==> s.produced[j].value == s.checks[j].outcome)
      && (s.workers[j].Holding? ==>
            s.produced[j].Some? && !s.produced[j].value.Exits?
            && s.workers[j].res == ExecuteCheck(s.checks[j], s.produced[j].value))
  }

  predicate Past(w: Worker) { w.Recorded? || w.Released? || w.Gone? }

  /** Before the freeze a slot is filled exactly by its own worker, once past its critical section. */
  ghost predicate SlotsConsistent(s: Config)
    requires Sizes(s)
  {
    && (s.frozen ==> forall j :: 0 <= j < |s.completed| ==> s.completed[j])
    && (!s.frozen ==> forall j :: 0 <= j < |s.completed| ==>
          (s.completed[j] <==> Past(s.workers[j]) && s.produced[j].Some? && !s.produced[j].value.Exits?))
  }

  function Writes(log: seq<Event>, j: nat): nat {
    if log == [] then 0
    else (if log[0].Wrote? && log[0].slot == j then 1 else 0) + Writes(log[1..], j)
  }

  /** A legitimate write to its slot: by the slot's own worker, or by the backfill. */
  ghost predicate GoodWrite(s: Config, e: Event)
    requires Sizes(s)
  {
    e.Wrote? ==>
      && e.slot < |s.checks|
      && s.results[e.slot] == e.res
      && s.completed[e.slot]
      && match e.writer
         case ByWorker(w) =>
           w == e.slot && s.produced[w].Some? && !s.produced[w].value.Exits?
           && e.res == ExecuteCheck(s.checks[w], s.produced[w].value)
         case ByBackfill => s.frozen && exists err :: IsBackfill(s, e.slot, err, e.res)
  }

  /**
   * The backfill at slot j stored res for parent error err: without a cancellation only a check
   * whose goroutine exited is ever backfilled.
   */
  ghost predicate IsBackfill(s: Config, j: nat, err: Option<string>, res: Result)
    requires Sizes(s) && j < |s.checks|
  {
    && res == NewCancelledResult(s.checks[j], err)
    && (err.Some? ==> s.ctxErr == err)
    && (err.None? ==> s.produced[j] == Some(Exits) && s.checks[j].outcome.Exits?)
  }

  ghost predicate LogConsistent(s: Config)
    requires Sizes(s)
  {
    && (forall k :: 0 <= k < |s.log| ==> GoodWrite(s, s.log[k]))
    && (forall j :: 0 <= j < |s.completed| ==> Writes(s.log, j) == (if s.completed[j] then 1 else 0))
  }

  ghost predicate Inv(s: Config) {
    && Sizes(s)
    && PrefixDispatched(s)
    && TokensBalance(s)
    && MainConsistent(s)
    && ProducedConsistent(s)
    && SlotsConsistent(s)
    && LogConsistent(s)
  }

  // ---------------------------------------------------------------- every step keeps the invariant

  lemma {:induction false} AllIdle(n: nat)
    ensures Holders(seq(n, _ => NotStarted)) == 0 && Live(seq(n, _ => NotStarted)) == 0
  {
    CountsPositive(seq(n, _ => NotStarted));
  }

  lemma InitialInv(checks: seq<Check>, capacity: nat)
    requires capacity >= 1
    ensures Inv(Initial(checks, capacity))
  {
    AllIdle(|checks|);
  }

  lemma StepPrefix(s: Config, a: Action)
    requires Inv(s) && Enabled(s, a)
    ensures Sizes(Apply(s, a)) && PrefixDispatched(Apply(s, a))
  {
    hide TokensBalance, MainConsistent, ProducedConsistent, SlotsConsistent, LogConsistent;
    hide BackfillEvents, ExecuteCheck, NewCancelledResult;
  }

  lemma StepTokens(s: Config, a: Action)
    requires Inv(s) && Enabled(s, a)
    ensures TokensBalance(Apply(s, a))
  {
    hide MainConsistent, ProducedConsistent, SlotsConsistent, LogConsistent, Holders, Live;
    hide BackfillEvents, Backfilled, ExecuteCheck;
    match a
    case Spawn => CountsUpdate(s.workers, s.next, Spawned);
    case Begin(i) => CountsUpdate(s.workers, i, Running);
    case Work(i, o) => CountsUpdate(s.workers, i, Apply(s, a).workers[i]);
    case Record(i) => CountsUpdate(s.workers, i, Recorded);
    case Release(i) => CountsUpdate(s.workers, i, Released);
    case Leave(i) => CountsUpdate(s.workers, i, Gone);
    case _ =>
  }

  lemma StepMain(s: Config, a: Action)
    requires Inv(s) && Enabled(s, a)
    ensures MainConsistent(Apply(s, a))
  {
    hide Holders, Live, PrefixDispatched, ProducedConsistent, SlotsConsistent, LogConsistent, BackfillEvents;
  }

  lemma StepProduced(s: Config, a: Action)
    requires Inv(s) && Enabled(s, a)
    ensures Sizes(Apply(s, a)) && ProducedConsistent(Apply(s, a))
  {
    hide Inv, Apply, Sizes, ProducedConsistent;
    if a.Work? {
      WorkProduced(s, a);
    } else if a.Spawn? || a.Begin? || a.Record? || a.Release? || a.Leave? {
      WorkerProduced(s, a);
    } else {
      OtherProduced(s, a);
    }
  }

  lemma WorkerProduced(s: Config, a: Action)
    requires Inv(s) && Enabled(s, a) && (a.Spawn? || a.Begin? || a.Record? || a.Release? || a.Leave?)
    ensures Sizes(Apply(s, a)) && ProducedConsistent(Apply(s, a))
  {
    hide TokensBalance, MainConsistent, SlotsConsistent, LogConsistent, ExecuteCheck, BackfillEvents, Backfilled;
  }

  lemma OtherProduced(s: Config, a: Action)
    requires Inv(s) && Enabled(s, a) && !a.Work? && !a.Spawn? && !a.Begin? && !a.Record? && !a.Release? && !a.Leave?
    ensures Sizes(Apply(s, a)) && ProducedConsistent(Apply(s, a))
  {
    hide PrefixDispatched, TokensBalance, MainConsistent, SlotsConsistent, LogConsistent;
    hide ExecuteCheck, BackfillEvents, Backfilled;
  }

  lemma WorkProduced(s: Config, a: Action)
    requires Inv(s) && Enabled(s, a) && a.Work?
    ensures Sizes(Apply(s, a)) && ProducedConsistent(Apply(s, a))
  {
    hide PrefixDispatched, TokensBalance, MainConsistent, SlotsConsistent, LogConsistent, ExecuteCheck;
  }

  lemma StepSlots(s: Config, a: Action)
    requires Inv(s) && Enabled(s, a)
    ensures Sizes(Apply(s, a)) && SlotsConsistent(Apply(s, a))
  {
    hide TokensBalance, MainConsistent, LogConsistent;
    hide BackfillEvents, Backfilled, ExecuteCheck, NewCancelledResult;
  }

  lemma {:induction false} WritesConcat(a: seq<Event>, b: seq<Event>, j: nat)
    ensures Writes(a + b, j) == Writes(a, j) + Writes(b, j)
  {
    if a == [] {
      assert a + b == b;
    } else {
      assert (a + b)[1..] == a[1..] + b;
      WritesConcat(a[1..], b, j);
    }
  }

  /** The backfill loop writes each incomplete slot from i on once, and nothing else. */
  lemma {:induction false} BackfillWrites(checks: seq<Check>, completed: seq<bool>, err: Option<string>, i: nat, j: nat)
    requires |checks| == |completed|
    ensures Writes(BackfillEvents(checks, completed, err, i), j)
         == (if i <= j < |checks| && !completed[j] then 1 else 0)
    decreases |checks| - i
  {
    hide NewCancelledResult;
    if i < |checks| {
      BackfillWrites(checks, completed, err, i + 1, j);
      var here := if completed[i] then [] else [Wrote(i, ByBackfill, NewCancelledResult(checks[i], err))];
      WritesConcat(here, BackfillEvents(checks, completed, err, i + 1), j);
    }
  }

  lemma {:induction false} BackfillEventsShape(checks: seq<Check>, completed: seq<bool>, err: Option<string>, i: nat)
    requires |checks| == |completed|
    ensures forall e :: e in BackfillEvents(checks, completed, err, i) ==>
              e.Wrote? && i <= e.slot < |checks| && !completed[e.slot] && e.writer.ByBackfill?
              && e.res == NewCancelledResult(checks[e.slot], err)
    decreases |checks| - i
  {
    hide NewCancelledResult;
    if i < |checks| {
      BackfillEventsShape(checks, completed, err, i + 1);
    }
  }

  /** A slot still empty at the freeze means cancellation, or a check that exited its goroutine. */
  lemma EmptySlotAtFreeze(s: Config, j: nat)
    requires Inv(s) && s.main.Freezing? && j < |s.checks| && !s.completed[j]
    ensures s.ctxErr.None? ==> s.produced[j] == Some(Exits) && s.checks[j].outcome.Exits?
  {
    if s.ctxErr.None? {
      CountsPositive(s.workers);
      assert !IsLive(s.workers[j]);
      assert s.workers[j].Gone?;
    }
  }

  lemma StepLogFreeze(s: Config)
    requires Inv(s) && Enabled(s, Freeze)
    ensures Sizes(Apply(s, Freeze)) && LogConsistent(Apply(s, Freeze))
  {
    hide TokensBalance, ProducedConsistent, SlotsConsistent, NewCancelledResult, BackfillEvents, Writes;
    var t := Apply(s, Freeze);
    var added := BackfillEvents(s.checks, s.completed, s.ctxErr, 0);
    BackfillEventsShape(s.checks, s.completed, s.ctxErr, 0);
    forall k | 0 <= k < |t.log| ensures GoodWrite(t, t.log[k]) {
      if k < |s.log| {
        assert t.log[k] == s.log[k];
        assert GoodWrite(s, s.log[k]);
      } else {
        var e := t.log[k];
        assert e == added[k - |s.log|] && e in added;
        EmptySlotAtFreeze(s, e.slot);
        assert IsBackfill(t, e.slot, s.ctxErr, e.res);
      }
    }
    forall j | 0 <= j < |t.completed| ensures Writes(t.log, j) == 1 {
      WritesConcat(s.log, added, j);
      BackfillWrites(s.checks, s.completed, s.ctxErr, 0, j);
    }
  }

  /** A good write stays good when the slots written so far keep their content. */
  lemma GoodWriteStays(s: Config, a: Action, e: Event)
    requires Inv(s) && Enabled(s, a) && !a.Freeze? && GoodWrite(s, e)
    ensures Sizes(Apply(s, a)) && GoodWrite(Apply(s, a), e)
  {
    hide TokensBalance, LogConsistent, BackfillEvents, Backfilled, ExecuteCheck, NewCancelledResult;
    var t := Apply(s, a);
    if e.Wrote? && e.writer.ByBackfill? {
      var err :| IsBackfill(s, e.slot, err, e.res);
      assert IsBackfill(t, e.slot, err, e.res);
    }
  }

  lemma StepLog(s: Config, a: Action)
    requires Inv(s) && Enabled(s, a)
    ensures Sizes(Apply(s, a)) && LogConsistent(Apply(s, a))
  {
    hide TokensBalance, PrefixDispatched, BackfillEvents, Backfilled, ExecuteCheck, NewCancelledResult;
    if a.Freeze? {
      StepLogFreeze(s);
    } else {
      var t := Apply(s, a);
      forall k | 0 <= k < |t.log| ensures GoodWrite(t, t.log[k]) {
        if k < |s.log| {
          assert t.log[k] == s.log[k];
          GoodWriteStays(s, a, s.log[k]);
        }
      }
      forall j | 0 <= j < |t.completed|
        ensures Writes(t.log, j) == (if t.completed[j] then 1 else 0)
      {
        if |t.log| > |s.log| {
          WritesConcat(s.log, [t.log[|s.log|]], j);
          assert t.log == s.log + [t.log[|s.log|]];
        }
      }
    }
  }

  lemma StepInv(s: Config, a: Action)
    requires Inv(s) && Enabled(s, a)
    ensures Inv(Apply(s, a))
  {
    StepPrefix(s, a);
    StepTokens(s, a);
    StepMain(s, a);
    StepProduced(s, a);
    StepSlots(s, a);
    StepLog(s, a);
  }

  lemma {:induction false} ExecInv(s: Config, schedule: seq<Action>)
    requires Inv(s) && Legal(s, schedule)
    ensures Inv(Exec(s, schedule))
    decreases |schedule|
  {
    if schedule != [] {
      StepInv(s, schedule[0]);
      ExecInv(Apply(s, schedule[0]), schedule[1..]);
    }
  }
}
