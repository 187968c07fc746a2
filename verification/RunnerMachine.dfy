/**
 * The Runner's shared state as the program keeps it: slices updated in place, a frozen flag under
 * a mutex, a semaphore and a wait group. Each method is one atomic step and is proved to do
 * exactly what the protocol's Apply says; Run drives them under an arbitrary scheduler.
 */
module RunnerMachine {
  import opened Wrappers
  import opened Report
  import opened Runner
  import opened RunnerTheorems
  import opened RunnerOrder
  import opened RunnerLimit

  class RunState {
    const checks: seq<Check>
    const capacity: nat
    var ctxErr: Option<string>
    var tokens: nat
    var wg: nat
    var doneClosed: bool
    var disp: Dispatcher
    var next: nat
    const workers: array<Worker>
    const produced: array<Option<Outcome>>
    const results: array<Result>
    const completed: array<bool>
    var frozen: bool
    var main: Main
    ghost var log: seq<Event>

    ghost function View(): Config
      reads this, workers, produced, results, completed
    {
      Config(checks, capacity, ctxErr, tokens, wg, doneClosed, disp, next, workers[..], produced[..],
             results[..], completed[..], frozen, main, log)
    }

    constructor (checks: seq<Check>, capacity: nat)
      ensures View() == Initial(checks, capacity)
      ensures fresh(workers) && fresh(produced) && fresh(results) && fresh(completed)
    {
      var n := |checks|;
      this.checks, this.capacity := checks, capacity;
      ctxErr, tokens, wg, doneClosed := None, 0, 0, false;
      disp, next := if n == 0 then Waiting else AtSelect, 0;
      var ws := new Worker[n](_ => NotStarted);
      var ps := new Option<Outcome>[n](_ => None);
      var rs := new Result[n](_ => ZERO_RESULT);
      var cs := new bool[n](_ => false);
      assert ws[..] == seq(n, _ => NotStarted) && ps[..] == seq(n, _ => None);
      assert rs[..] == seq(n, _ => ZERO_RESULT) && cs[..] == seq(n, _ => false);
      workers, produced, results, completed := ws, ps, rs, cs;
      frozen, main, log := false, Selecting, [];
    }

    /** The dispatcher's goroutine between two channel operations. */
    method DispatcherStep(a: Action)
      requires a.Acquire? || a.Abandon? || a.Spawn? || a.WaitDone? || a.CloseDone?
      requires Inv(View()) && Enabled(View(), a)
      modifies this, workers
      ensures View() == Apply(old(View()), a)
    {
      hide TokensBalance, MainConsistent, ProducedConsistent, SlotsConsistent, LogConsistent, BackfillEvents;
      match a
      case Acquire =>
        tokens, disp := tokens + 1, AtSpawn;
      case Abandon =>
        disp := Waiting;
      case Spawn =>
        log := log + [Dispatched(next)];
        wg := wg + 1;
        workers[next] := Spawned;
        next := next + 1;
        disp := if next == |checks| then Waiting else AtSelect;
      case WaitDone =>
        disp := Closing;
      case CloseDone =>
        disp, doneClosed := Finished, true;
    }

    /** Worker i enters its check. */
    method BeginCheck(i: nat)
      requires Enabled(View(), Begin(i))
      modifies this`log, workers
      ensures View() == Apply(old(View()), Begin(i))
    {
      log := log + [Started(i)];
      workers[i] := Running;
    }

    /** Worker i runs its check to the end, however it ends. */
    method Execute(i: nat, o: Outcome)
      requires Enabled(View(), Work(i, o))
      modifies workers, produced
      ensures View() == Apply(old(View()), Work(i, o))
    {
      produced[i] := Some(o);
      if o.Exits? {
        workers[i] := Recorded;
      } else {
        workers[i] := Holding(ExecuteCheck(checks[i], o));
      }
    }

    /** runOne's critical section: write the slot unless the run is frozen or the slot is taken. */
    method RecordResult(i: nat)
      requires Enabled(View(), Record(i))
      modifies this`log, workers, results, completed
      ensures View() == Apply(old(View()), Record(i))
    {
      var res := workers[i].res;
      if !frozen && !completed[i] {
        results[i] := res;
        completed[i] := true;
        log := log + [Wrote(i, ByWorker(i), res)];
      }
      workers[i] := Recorded;
    }

    /** runOne's deferred calls. */
    method Unwind(i: nat)
      requires Enabled(View(), Release(i)) || Enabled(View(), Leave(i))
      modifies this`tokens, this`wg, workers
      ensures View() == Apply(old(View()), if old(workers[i]).Recorded? then Release(i) else Leave(i))
    {
      if workers[i].Recorded? {
        tokens := tokens - 1;
        workers[i] := Released;
      } else {
        wg := wg - 1;
        workers[i] := Gone;
      }
    }

    /** The loop of Run's critical section: fill every incomplete slot. */
    method Backfill()
      requires results.Length == completed.Length == |checks|
      modifies this`log, results, completed
      ensures results[..] == Backfilled(checks, old(completed[..]), old(results[..]), ctxErr)
      ensures completed[..] == seq(|checks|, _ => true)
      ensures log == old(log) + BackfillEvents(checks, old(completed[..]), ctxErr, 0)
    {
      hide NewCancelledResult;
      ghost var was := completed[..];
      for i := 0 to |checks|
        invariant forall j :: 0 <= j < i ==>
          completed[j] && results[j] == (if was[j] then old(results[j]) else NewCancelledResult(checks[j], ctxErr))
        invariant forall j :: i <= j < |checks| ==> completed[j] == was[j] && results[j] == old(results[j])
        invariant log + BackfillEvents(checks, was, ctxErr, i) == old(log) + BackfillEvents(checks, was, ctxErr, 0)
      {
        if completed[i] {
          assert BackfillEvents(checks, was, ctxErr, i) == BackfillEvents(checks, was, ctxErr, i + 1);
        } else {
          var res := NewCancelledResult(checks[i], ctxErr);
          BackfillMoves(log, checks, was, ctxErr, i);
          log := log + [Wrote(i, ByBackfill, res)];
          results[i] := res;
          completed[i] := true;
        }
      }
    }

    /** Run's critical section. */
    method FreezeAndBackfill()
      requires Enabled(View(), Freeze)
      modifies this`frozen, this`log, this`main, results, completed
      ensures View() == Apply(old(View()), Freeze)
    {
      frozen := true;
      Backfill();
      main := Summing;
    }

    method Summarise()
      requires Enabled(View(), Finish)
      modifies this`main
      ensures View() == Apply(old(View()), Finish)
    {
      var summary := NewSummary(results[..]);
      main := Returned(summary);
    }

    /** One action of any process. */
    method Do(a: Action)
      requires Inv(View()) && Enabled(View(), a)
      modifies this, workers, produced, results, completed
      ensures View() == Apply(old(View()), a)
    {
      match a
      case Begin(i) => BeginCheck(i);
      case Work(i, o) => Execute(i, o);
      case Record(i) => RecordResult(i);
      case Release(i) => Unwind(i);
      case Leave(i) => Unwind(i);
      case Cancel(e) => ctxErr := Some(e);
      case SeeDone => main := Freezing;
      case SeeCancel => main := Freezing;
      case Freeze => FreezeAndBackfill();
      case Finish => Summarise();
      case _ => DispatcherStep(a);
    }

    /** Whether a can happen now, read off the concrete state. */
    method CanDo(a: Action) returns (ok: bool)
      ensures ok == Enabled(View(), a)
    {
      var n := workers.Length;
      match a
      case Acquire => ok := disp.AtSelect? && tokens < capacity;
      case Abandon => ok := disp.AtSelect? && ctxErr.Some?;
      case Spawn => ok := disp.AtSpawn? && next < n;
      case WaitDone => ok := disp.Waiting? && wg == 0;
      case CloseDone => ok := disp.Closing?;
      case Begin(i) => ok := i < n && workers[i].Spawned?;
      case Work(i, o) =>
        ok := i < n == produced.Length == |checks| && workers[i].Running?
              && (ctxErr.Some? || o == checks[i].outcome);
      case Record(i) => ok := i < n == completed.Length == results.Length && workers[i].Holding?;
      case Release(i) => ok := i < n && workers[i].Recorded? && tokens > 0;
      case Leave(i) => ok := i < n && workers[i].Released? && wg > 0;
      case Cancel(_) => ok := ctxErr.None?;
      case SeeDone => ok := main.Selecting? && doneClosed;
      case SeeCancel => ok := main.Selecting? && ctxErr.Some?;
      case Freeze => ok := main.Freezing? && results.Length == completed.Length == |checks|;
      case Finish => ok := main.Summing?;
    }
  }

  datatype RunReport = RunReport(results: seq<Result>, summary: Summary)

  /**
   * Runner.Run under a scheduler that proposes actions one at a time; a proposal that is not
   * enabled is passed over. The report is there once Run has returned, whatever the leaked
   * goroutines did before or do after.
   */
  method Run(checks: seq<Check>, concurrency: int, numCPU: nat, proposals: seq<Action>)
    returns (report: Option<RunReport>, ghost schedule: seq<Action>, ghost end: Config)
    requires numCPU >= 1
    ensures checks == [] ==> report == Some(RunReport([], SummaryOf([])))
    ensures checks != [] ==>
      && Reachable(checks, Capacity(concurrency, numCPU), schedule, end)
      && schedule == Taken(Initial(checks, Capacity(concurrency, numCPU)), proposals)
      && (report.Some? <==> end.main.Returned?)
      && (report.Some? ==> report.value == RunReport(end.results, SummaryOf(end.results)))
    ensures checks != [] ==> forall limit: nat :: IsLimit(concurrency, numCPU, limit) ==>
      WithinLimit(Initial(checks, end.capacity), schedule, limit)
    ensures checks != [] && concurrency == 1 ==> InOrder(end.log)
    ensures report.Some? && (forall a :: a in proposals ==> !a.Cancel?)
      ==> report.value == RunReport(Sequential(checks), SummaryOf(Sequential(checks)))
  {
    schedule := [];
    var capacity := if concurrency <= 0 then numCPU else concurrency;
    end := Initial(checks, capacity);
    if |checks| == 0 {
      var empty := NewSummary([]);
      assert Sequential(checks) == [];
      return Some(RunReport([], empty)), schedule, end;
    }
    var state := new RunState(checks, capacity);
    InitialInv(checks, capacity);
    for k := 0 to |proposals|
      invariant fresh(state) && fresh(state.workers) && fresh(state.produced)
      invariant fresh(state.results) && fresh(state.completed)
      invariant Legal(Initial(checks, capacity), schedule)
      invariant state.View() == Exec(Initial(checks, capacity), schedule) && Inv(state.View())
      invariant schedule == Taken(Initial(checks, capacity), proposals[..k])
    {
      var a := proposals[k];
      TakenSnoc(Initial(checks, capacity), proposals[..k], a);
      assert proposals[..k + 1] == proposals[..k] + [a];
      var ok := state.CanDo(a);
      if ok {
        StepInv(state.View(), a);
        OneMore(Initial(checks, capacity), schedule, a);
        state.Do(a);
        schedule := schedule + [a];
      }
    }
    end := state.View();
    assert proposals[..|proposals|] == proposals;
    ReachableInv(checks, capacity, schedule, end);
    RunWithinLimit(checks, capacity, schedule);
    ConcurrencyOrders(checks, concurrency, numCPU);
    if state.main.Returned? {
      report := Some(RunReport(state.results[..], state.main.summary));
      if forall a :: a in proposals ==> !a.Cancel? {
        TakenAreProposals(Initial(checks, capacity), proposals);
        NeverCancelled(Initial(checks, capacity), schedule);
        UncancelledRunIsSequential(checks, capacity, schedule, end);
      }
    } else {
      report := None;
    }
  }

  lemma BackfillMoves(log: seq<Event>, checks: seq<Check>, completed: seq<bool>, err: Option<string>, i: nat)
    requires |checks| == |completed| && i < |checks| && !completed[i]
    ensures log + BackfillEvents(checks, completed, err, i)
         == log + [Wrote(i, ByBackfill, NewCancelledResult(checks[i], err))]
            + BackfillEvents(checks, completed, err, i + 1)
  {
  }

  lemma OneMore(s: Config, schedule: seq<Action>, a: Action)
    requires Legal(s, schedule) && Enabled(Exec(s, schedule), a)
    ensures Legal(s, schedule + [a]) && Exec(s, schedule + [a]) == Apply(Exec(s, schedule), a)
  {
    var t := Exec(s, schedule);
    assert [a][1..] == [];
    assert Legal(Apply(t, a), []) && Legal(t, [a]) && Exec(t, [a]) == Apply(t, a);
    ExecConcat(s, schedule, [a]);
  }

  lemma {:induction false} NeverCancelled(s: Config, schedule: seq<Action>)
    requires Legal(s, schedule) && s.ctxErr.None?
    requires forall a :: a in schedule ==> !a.Cancel?
    ensures Exec(s, schedule).ctxErr.None?
    decreases |schedule|
  {
    if schedule != [] {
      assert schedule[0] in schedule;
      NeverCancelled(Apply(s, schedule[0]), schedule[1..]);
    }
  }
}
