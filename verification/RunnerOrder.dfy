/**
 * In which order the Runner's checks are dispatched and begin, and which of them can still begin
 * late. The go statement dispatches a check; its own code begins when its goroutine gets to run.
 */
module RunnerOrder {
  import opened Wrappers
  import opened Report
  import opened Runner
  import opened RunnerTheorems
  import opened Sequences

  // ---------------------------------------------------------------- the order of events

  predicate Picks(e: Event, started: bool) {
    if started then e.Started? else e.Dispatched?
  }

  /** The checks dispatched, or started, in the order it happened. */
  function Order(log: seq<Event>, started: bool): seq<nat> {
    if log == [] then []
    else (if Picks(log[0], started) then [log[0].check] else []) + Order(log[1..], started)
  }

  lemma {:induction false} OrderConcat(a: seq<Event>, b: seq<Event>, started: bool)
    ensures Order(a + b, started) == Order(a, started) + Order(b, started)
  {
    if a == [] {
      assert a + b == b;
    } else {
      var here := if Picks(a[0], started) then [a[0].check] else [];
      assert Order(a + b, started) == here + Order(a[1..] + b, started) by {
        assert (a + b)[1..] == a[1..] + b;
      }
      OrderConcat(a[1..], b, started);
      assert Order(a, started) == here + Order(a[1..], started);
      hide Order;
      ConcatAssociative(here, Order(a[1..], started), Order(b, started));
    }
  }

  lemma {:induction false} BackfillOrdersNothing(checks: seq<Check>, completed: seq<bool>, err: Option<string>, i: nat,
                                                 started: bool)
    requires |checks| == |completed|
    ensures Order(BackfillEvents(checks, completed, err, i), started) == []
    decreases |checks| - i
  {
    hide NewCancelledResult;
    if i < |checks| {
      BackfillOrdersNothing(checks, completed, err, i + 1, started);
      var here := if completed[i] then [] else [Wrote(i, ByBackfill, NewCancelledResult(checks[i], err))];
      OrderConcat(here, BackfillEvents(checks, completed, err, i + 1), started);
    }
  }

  /** What one action adds. */
  function Added(s: Config, a: Action, started: bool): seq<nat> {
    if a.Spawn? && !started then [s.next] else if a.Begin? && started then [a.i] else []
  }

  lemma OrderStep(s: Config, a: Action, started: bool)
    requires Inv(s) && Enabled(s, a)
    ensures Order(Apply(s, a).log, started) == Order(s.log, started) + Added(s, a, started)
  {
    hide Inv, BackfillEvents, ExecuteCheck, NewCancelledResult;
    var t := Apply(s, a);
    if a.Freeze? {
      BackfillOrdersNothing(s.checks, s.completed, s.ctxErr, 0, started);
      OrderConcat(s.log, BackfillEvents(s.checks, s.completed, s.ctxErr, 0), started);
    } else if |t.log| > |s.log| {
      var e := t.log[|s.log|];
      assert t.log == s.log + [e];
      OrderConcat(s.log, [e], started);
      assert Order([e], started) == if Picks(e, started) then [e.check] else [];
    }
  }

  // ---------------------------------------------------------------- dispatch

  /** In every schedule the checks are dispatched in input order, each once. */
  lemma {:induction false} DispatchedInInputOrder(s: Config, schedule: seq<Action>)
    requires Inv(s) && Legal(s, schedule) && Order(s.log, false) == seq(s.next, k => k)
    ensures Order(Exec(s, schedule).log, false) == seq(Exec(s, schedule).next, k => k)
    decreases |schedule|
  {
    hide Inv, Order;
    if schedule != [] {
      var a := schedule[0];
      OrderStep(s, a, false);
      StepInv(s, a);
      assert Apply(s, a).next == s.next + |Added(s, a, false)|;
      DispatchedInInputOrder(Apply(s, a), schedule[1..]);
    }
  }

  // ---------------------------------------------------------------- start

  /** The check's own code has begun. */
  predicate Begun(w: Worker) {
    !w.NotStarted? && !w.Spawned?
  }

  /** Each check begins at most once, and has begun exactly when its worker is past its first step. */
  ghost predicate CountsStarts(s: Config) {
    forall j: nat :: j < |s.workers| ==> multiset(Order(s.log, true))[j] == if Begun(s.workers[j]) then 1 else 0
  }

  lemma {:induction false} StartsOnce(s: Config, schedule: seq<Action>)
    requires Inv(s) && Legal(s, schedule) && CountsStarts(s)
    ensures CountsStarts(Exec(s, schedule))
    decreases |schedule|
  {
    if schedule != [] {
      var a := schedule[0];
      StepInv(s, a);
      StartCounted(s, a);
      hide Inv, CountsStarts;
      StartsOnce(Apply(s, a), schedule[1..]);
    }
  }

  lemma StartCounted(s: Config, a: Action)
    requires Inv(s) && Enabled(s, a) && CountsStarts(s)
    ensures CountsStarts(Apply(s, a))
  {
    hide Inv, Sizes, PrefixDispatched, Order, Apply, Enabled, Begun;
    OrderStep(s, a, true);
    InvPrefix(s);
    BegunStep(s, a);
  }

  lemma InvPrefix(s: Config)
    requires Inv(s)
    ensures Sizes(s) && PrefixDispatched(s)
  {
  }

  /** A worker begins by its own action only, and was not begun before. */
  lemma BegunStep(s: Config, a: Action)
    requires Sizes(s) && PrefixDispatched(s) && Enabled(s, a)
    ensures |Apply(s, a).workers| == |s.workers|
    ensures a.Begin? ==> a.i < |s.workers| && !Begun(s.workers[a.i])
    ensures forall j: nat :: j < |s.workers| ==>
              (Begun(Apply(s, a).workers[j]) <==> Begun(s.workers[j]) || a == Begin(j))
  {
    hide BackfillEvents, Backfilled, ExecuteCheck;
  }

  /** The starts so far are checks 0, 1, 2 and so on. */
  ghost predicate InOrder(log: seq<Event>) {
    forall k :: 0 <= k < |Order(log, true)| ==> Order(log, true)[k] == k
  }

  /** Only the last dispatched check may not have begun yet. */
  ghost predicate OneByOne(s: Config)
    requires s.next <= |s.workers|
  {
    && (forall j :: 0 <= j < s.next - 1 ==> !s.workers[j].Spawned?)
    && Order(s.log, true) == seq(if s.next > 0 && s.workers[s.next - 1].Spawned? then s.next - 1 else s.next, k => k)
  }

  lemma KeepsOneByOne(s: Config, a: Action)
    requires Inv(s) && Enabled(s, a) && OneByOne(s)
    requires s.capacity == 1 || |s.checks| < 2
    ensures Sizes(Apply(s, a)) && OneByOne(Apply(s, a))
  {
    hide Inv, Apply, OneByOne, Sizes;
    if a.Spawn? {
      SpawnKeepsOneByOne(s);
    } else if a.Begin? {
      BeginKeepsOneByOne(s, a.i);
    } else {
      OtherKeepsOneByOne(s, a);
    }
  }

  lemma OtherKeepsOneByOne(s: Config, a: Action)
    requires Inv(s) && Enabled(s, a) && OneByOne(s) && !a.Spawn? && !a.Begin?
    ensures Sizes(Apply(s, a)) && OneByOne(Apply(s, a))
  {
    hide Order, Apply, Inv;
    OrderStep(s, a, true);
    StepInv(s, a);
    InvSizes(s);
    InvSizes(Apply(s, a));
    NoneSpawned(s, a);
  }

  lemma NoneSpawned(s: Config, a: Action)
    requires Sizes(s) && Enabled(s, a) && !a.Spawn? && !a.Begin?
    ensures var t := Apply(s, a);
            && t.next == s.next && |t.workers| == |s.workers|
            && forall j :: 0 <= j < |s.workers| ==> (t.workers[j].Spawned? <==> s.workers[j].Spawned?)
  {
    hide BackfillEvents, Backfilled, ExecuteCheck;
  }

  lemma BeginKeepsOneByOne(s: Config, i: nat)
    requires Inv(s) && Enabled(s, Begin(i)) && OneByOne(s)
    ensures Sizes(Apply(s, Begin(i))) && OneByOne(Apply(s, Begin(i)))
  {
    hide TokensBalance, MainConsistent, ProducedConsistent, SlotsConsistent, LogConsistent, Order;
    OrderStep(s, Begin(i), true);
  }

  lemma SpawnKeepsOneByOne(s: Config)
    requires Inv(s) && Enabled(s, Spawn) && OneByOne(s)
    requires s.capacity == 1 || |s.checks| < 2
    ensures Sizes(Apply(s, Spawn)) && OneByOne(Apply(s, Spawn))
  {
    hide MainConsistent, ProducedConsistent, SlotsConsistent, LogConsistent, Order;
    OrderStep(s, Spawn, true);
    CountsPositive(s.workers);
    if s.next > 0 {
      assert !HoldsToken(s.workers[s.next - 1]);
    }
  }

  lemma {:induction false} StaysOneByOne(s: Config, schedule: seq<Action>)
    requires Inv(s) && Legal(s, schedule) && OneByOne(s)
    requires s.capacity == 1 || |s.checks| < 2
    ensures InOrder(Exec(s, schedule).log)
    decreases |schedule|
  {
    if schedule != [] {
      var a := schedule[0];
      StepInv(s, a);
      KeepsOneByOne(s, a);
      SameInput(s, a);
      hide Inv, OneByOne, InOrder, Apply;
      StaysOneByOne(Apply(s, a), schedule[1..]);
    }
  }

  lemma SameInput(s: Config, a: Action)
    requires Enabled(s, a)
    ensures Apply(s, a).capacity == s.capacity && Apply(s, a).checks == s.checks
  {
  }

  /** Two goroutines spawned, and the second one gets to run first. */
  lemma SecondBeginsFirst(checks: seq<Check>, capacity: nat)
    requires capacity >= 2 && |checks| >= 2
    ensures var schedule := [Acquire, Spawn, Acquire, Spawn, Begin(1)];
            && Legal(Initial(checks, capacity), schedule)
            && Order(Exec(Initial(checks, capacity), schedule).log, true) == [1]
  {
    var s0 := Initial(checks, capacity);
    var s1 := Apply(s0, Acquire);
    var s2 := Apply(s1, Spawn);
    var s3 := Apply(s2, Acquire);
    var s4 := Apply(s3, Spawn);
    var s5 := Apply(s4, Begin(1));
    assert s5.log == [Dispatched(0), Dispatched(1), Started(1)];
    LegalFive(s0, Acquire, Spawn, Acquire, Spawn, Begin(1));
    assert s5.log[1..] == [Dispatched(1), Started(1)] && s5.log[1..][1..] == [Started(1)];
    assert Order([Started(1)], true) == [1] + Order([], true);
  }

  lemma LegalFive(s: Config, a: Action, b: Action, c: Action, d: Action, e: Action)
    requires Enabled(s, a) && Enabled(Apply(s, a), b) && Enabled(Apply(Apply(s, a), b), c)
    requires var t := Apply(Apply(Apply(s, a), b), c); Enabled(t, d) && Enabled(Apply(t, d), e)
    ensures Legal(s, [a, b, c, d, e])
    ensures Exec(s, [a, b, c, d, e]) == Apply(Apply(Apply(Apply(Apply(s, a), b), c), d), e)
  {
    hide Enabled, Apply;
    LegalThree(s, a, b, c);
    var t := Apply(Apply(Apply(s, a), b), c);
    assert [d, e][1..] == [e] && [e][1..] == [];
    var u := Apply(t, d);
    assert Legal(Apply(u, e), []) && Legal(u, [e]) && Exec(u, [e]) == Apply(u, e);
    ExecConcat(s, [a, b, c], [d, e]);
    assert [a, b, c] + [d, e] == [a, b, c, d, e];
  }

  /**
   * The Runner's comment promises that workers start in input order. The dispatcher acquires and
   * spawns in that order, but nothing orders the first steps of two goroutines: every schedule
   * starts its checks in input order exactly when there is one token, or fewer than two checks.
   */
  lemma StartsInInputOrder(checks: seq<Check>, capacity: nat)
    requires capacity >= 1
    ensures (forall schedule :: Legal(Initial(checks, capacity), schedule) ==>
               InOrder(Exec(Initial(checks, capacity), schedule).log))
       <==> capacity == 1 || |checks| < 2
  {
    var s0 := Initial(checks, capacity);
    if capacity == 1 || |checks| < 2 {
      InitialInv(checks, capacity);
      assert OneByOne(s0);
      hide Inv, InOrder, OneByOne;
      forall schedule | Legal(s0, schedule) ensures InOrder(Exec(s0, schedule).log) {
        StaysOneByOne(s0, schedule);
      }
    } else {
      SecondBeginsFirst(checks, capacity);
      var schedule := [Acquire, Spawn, Acquire, Spawn, Begin(1)];
      assert Order(Exec(s0, schedule).log, true)[0] != 0;
      assert !InOrder(Exec(s0, schedule).log);
    }
  }

  /** How many of these workers have not begun. */
  function Unbegun(ws: seq<Worker>): nat {
    if ws == [] then 0 else Unbegun(ws[..|ws| - 1]) + if Begun(ws[|ws| - 1]) then 0 else 1
  }

  lemma {:induction false} UnbegunHold(ws: seq<Worker>, k: nat)
    requires k <= |ws| && forall j :: 0 <= j < k ==> !ws[j].NotStarted?
    ensures Unbegun(ws[..k]) <= Holders(ws[..k])
  {
    if k > 0 {
      UnbegunHold(ws, k - 1);
      assert ws[..k][..k - 1] == ws[..k - 1];
      HoldersConcat(ws[..k - 1], [ws[k - 1]]);
      assert ws[..k] == ws[..k - 1] + [ws[k - 1]];
    }
  }

  lemma {:induction false} HoldersConcat(a: seq<Worker>, b: seq<Worker>)
    ensures Holders(a + b) == Holders(a) + Holders(b)
  {
    if a == [] {
      assert a + b == b;
    } else {
      assert (a + b)[1..] == a[1..] + b;
      HoldersConcat(a[1..], b);
    }
  }

  /** What is left of the promise: a check overtakes fewer earlier ones than there are tokens. */
  lemma OvertakesFewerThanCapacity(s: Config, k: nat)
    requires Inv(s) && Enabled(s, Begin(k))
    ensures Unbegun(s.workers[..k]) < s.capacity
  {
    hide MainConsistent, ProducedConsistent, SlotsConsistent, LogConsistent;
    var ws := s.workers;
    UnbegunHold(ws, k);
    HoldersConcat(ws[..k], ws[k..]);
    assert ws == ws[..k] + ws[k..];
    CountsPositive(ws[k..]);
    assert HoldsToken(ws[k..][0]);
  }

  // ---------------------------------------------------------------- late starts

  /** A dispatcher past its loop dispatches nothing any more. */
  lemma {:induction false} PastLoop(s: Config, schedule: seq<Action>)
    requires Legal(s, schedule) && !s.disp.AtSelect? && !s.disp.AtSpawn?
    ensures Spawn !in schedule && Exec(s, schedule).next == s.next
    decreases |schedule|
  {
    if schedule != [] {
      PastLoop(Apply(s, schedule[0]), schedule[1..]);
    }
  }

  /** If moreover no goroutine waits to run, nothing begins any more. */
  lemma {:induction false} NothingBegins(s: Config, schedule: seq<Action>, i: nat)
    requires Legal(s, schedule) && !s.disp.AtSelect? && !s.disp.AtSpawn?
    requires forall j :: 0 <= j < |s.workers| ==> !s.workers[j].Spawned?
    ensures Begin(i) !in schedule
    decreases |schedule|
  {
    if schedule != [] {
      NothingBegins(Apply(s, schedule[0]), schedule[1..], i);
    }
  }

  /** A dispatcher still in its loop can dispatch its next check: holders of the semaphore let it through. */
  lemma {:induction false} DriveToSpawn(s: Config) returns (schedule: seq<Action>)
    requires Inv(s) && (s.disp.AtSelect? || s.disp.AtSpawn?)
    ensures Legal(s, schedule) && Inv(Exec(s, schedule)) && Spawn in schedule
    ensures var t := Exec(s, schedule);
            t.next == s.next + 1 <= |s.checks| && t.checks == s.checks && (t.next < |s.checks| ==> t.disp.AtSelect?)
    decreases Rank(s)
  {
    var a := TowardsSpawn(s);
    var t := Apply(s, a);
    StepInv(s, a);
    RankDrops(s, a);
    hide Inv, Rank;
    if a.Spawn? {
      schedule := [a];
      assert schedule[1..] == [] && Legal(t, []);
    } else {
      hide Apply;
      var rest := DriveToSpawn(t);
      schedule := [a] + rest;
      assert schedule[1..] == rest;
    }
  }

  /** A step that brings the dispatcher nearer to its next spawn: its own, or a token holder's. */
  lemma TowardsSpawn(s: Config) returns (a: Action)
    requires Inv(s) && (s.disp.AtSelect? || s.disp.AtSpawn?)
    ensures Enabled(s, a)
    ensures var t := Apply(s, a);
            && t.checks == s.checks
            && if a.Spawn? then t.next == s.next + 1 <= |s.checks| && (t.next < |s.checks| ==> t.disp.AtSelect?)
               else t.next == s.next && (t.disp.AtSelect? || t.disp.AtSpawn?)
  {
    hide MainConsistent, ProducedConsistent, SlotsConsistent, LogConsistent;
    a := Spawn;
    if s.disp.AtSelect? {
      a := Acquire;
      if s.tokens >= s.capacity {
        CountsPositive(s.workers);
        var h :| 0 <= h < |s.workers| && HoldsToken(s.workers[h]);
        LiveWorkerSteps(s, h);
        a := WorkerStep(s, h);
      }
    }
  }

  lemma {:induction false} DriveToCheck(s: Config, k: nat) returns (schedule: seq<Action>)
    requires Inv(s) && (s.disp.AtSelect? || s.disp.AtSpawn?) && s.next <= k < |s.checks|
    ensures Legal(s, schedule) && Exec(s, schedule).next == k + 1
    decreases k - s.next
  {
    hide Inv;
    schedule := DriveToSpawn(s);
    var t := Exec(s, schedule);
    if t.next <= k {
      var rest := DriveToCheck(t, k);
      ExecConcat(s, schedule, rest);
      schedule := schedule + rest;
    }
  }

  /**
   * The Runner's comment promises that a cancelled run stops dispatching. Exactly when does it? In
   * any state, cancelled or not, some schedule dispatches another check if and only if the
   * dispatcher has not left its loop: cancellation alone does not stop it, its select may take a
   * free slot.
   */
  lemma AnotherDispatch(s: Config)
    requires Inv(s)
    ensures (exists schedule :: Legal(s, schedule) && Spawn in schedule) <==> s.disp.AtSelect? || s.disp.AtSpawn?
  {
    hide Inv;
    if s.disp.AtSelect? || s.disp.AtSpawn? {
      var schedule := DriveToSpawn(s);
    } else {
      forall schedule | Legal(s, schedule) ensures Spawn !in schedule {
        PastLoop(s, schedule);
      }
    }
  }

  /** And exactly when can it stop for good without dispatching any more? Once cancelled, at its next select. */
  lemma DispatchMayStop(s: Config)
    requires Inv(s) && s.disp.AtSelect?
    ensures (exists a :: Enabled(s, a) && Stopped(s, a)) <==> s.ctxErr.Some?
  {
    hide Inv;
    if s.ctxErr.Some? {
      var t := Apply(s, Abandon);
      forall late | Legal(t, late) ensures Spawn !in late {
        PastLoop(t, late);
      }
      assert Stopped(s, Abandon);
    } else if a :| Enabled(s, a) && Stopped(s, a) {
      var t := Apply(s, a);
      StepInv(s, a);
      StaysInLoop(s, a);
      var late := DriveToSpawn(t);
    }
  }

  lemma StaysInLoop(s: Config, a: Action)
    requires Enabled(s, a) && s.disp.AtSelect? && s.ctxErr.None?
    ensures Apply(s, a).disp.AtSelect? || Apply(s, a).disp.AtSpawn?
  {
    hide BackfillEvents, Backfilled, ExecuteCheck;
  }

  /** Once a is done nothing is dispatched any more. */
  ghost predicate Stopped(s: Config, a: Action)
    requires Enabled(s, a)
  {
    forall late :: Legal(Apply(s, a), late) ==> Spawn !in late
  }

  lemma BeginNow(s: Config, i: nat) returns (schedule: seq<Action>)
    requires Enabled(s, Begin(i))
    ensures schedule == [Begin(i)] && Legal(s, schedule) && Exec(s, schedule) == Apply(s, Begin(i))
  {
    schedule := [Begin(i)];
    assert schedule[1..] == [] && Legal(Apply(s, Begin(i)), []);
  }

  /** From any state the next check to be dispatched can also begin. */
  lemma DriveToBegin(s: Config, k: nat) returns (schedule: seq<Action>)
    requires Inv(s) && k < |s.checks| && (k < s.next || s.disp.AtSelect? || s.disp.AtSpawn?)
    ensures Legal(s, schedule) && k < |Exec(s, schedule).workers| && Begun(Exec(s, schedule).workers[k])
    ensures k >= s.next || s.workers[k].Spawned? ==> Begin(k) in schedule
  {
    schedule := [];
    if k >= s.next {
      schedule := DriveToCheck(s, k);
    }
    var t := Exec(s, schedule);
    ExecInv(s, schedule);
    ExecKeepsInput(s, schedule);
    if t.workers[k].Spawned? {
      var last := BeginNow(t, k);
      ExecConcat(s, schedule, last);
      schedule := schedule + last;
    } else if k >= s.next {
      BegunByItself(s, schedule, k);
    }
  }

  /** Only its Begin action lets a worker begin. */
  lemma {:induction false} BegunByItself(s: Config, schedule: seq<Action>, k: nat)
    requires Inv(s) && Legal(s, schedule) && k < |s.workers| && !Begun(s.workers[k])
    requires k < |Exec(s, schedule).workers| && Begun(Exec(s, schedule).workers[k])
    ensures Begin(k) in schedule
    decreases |schedule|
  {
    var a := schedule[0];
    StepInv(s, a);
    if a != Begin(k) {
      StaysUnbegun(s, a, k);
      hide Inv, Begun, Apply;
      BegunByItself(Apply(s, a), schedule[1..], k);
    }
  }

  lemma StaysUnbegun(s: Config, a: Action, k: nat)
    requires Enabled(s, a) && k < |s.workers| && !Begun(s.workers[k]) && a != Begin(k)
    ensures k < |Apply(s, a).workers| && !Begun(Apply(s, a).workers[k])
  {
    hide BackfillEvents, Backfilled, ExecuteCheck;
  }

  /**
   * Exactly when can another check still begin, cancelled or not? While the dispatcher is in its
   * loop, or some spawned goroutine has not got to run.
   */
  lemma AnotherCheckMayStart(s: Config)
    requires Inv(s)
    ensures (exists schedule, i: nat :: Legal(s, schedule) && Begin(i) in schedule)
       <==> s.disp.AtSelect? || s.disp.AtSpawn? || exists i :: 0 <= i < |s.workers| && s.workers[i].Spawned?
  {
    if s.disp.AtSelect? || s.disp.AtSpawn? || exists i :: 0 <= i < |s.workers| && s.workers[i].Spawned? {
      var schedule, i := SomeBegin(s);
    } else {
      hide Inv;
      forall schedule, i: nat | Legal(s, schedule) ensures Begin(i) !in schedule {
        NothingBegins(s, schedule, i);
      }
    }
  }

  lemma SomeBegin(s: Config) returns (schedule: seq<Action>, i: nat)
    requires Inv(s)
    requires s.disp.AtSelect? || s.disp.AtSpawn? || exists i :: 0 <= i < |s.workers| && s.workers[i].Spawned?
    ensures Legal(s, schedule) && Begin(i) in schedule
  {
    if s.disp.AtSelect? || s.disp.AtSpawn? {
      LoopHasMore(s);
      hide Inv;
      i := s.next;
      schedule := DriveToBegin(s, i);
    } else {
      hide Inv;
      i :| i < |s.workers| && s.workers[i].Spawned?;
      schedule := BeginNow(s, i);
      assert schedule[0] == Begin(i);
    }
  }

  lemma LoopHasMore(s: Config)
    requires Inv(s) && (s.disp.AtSelect? || s.disp.AtSpawn?)
    ensures s.next < |s.checks|
  {
  }

  /** Which checks: those dispatched already, and all the others while the dispatcher is in its loop. */
  lemma CheckMayStart(s: Config, k: nat)
    requires Inv(s) && k < |s.checks|
    ensures (exists schedule :: Legal(s, schedule) && k < |Exec(s, schedule).workers|
                                && Begun(Exec(s, schedule).workers[k]))
       <==> k < s.next || s.disp.AtSelect? || s.disp.AtSpawn?
  {
    hide Inv;
    if k < s.next || s.disp.AtSelect? || s.disp.AtSpawn? {
      var schedule := DriveToBegin(s, k);
    } else {
      forall schedule | Legal(s, schedule) && k < |Exec(s, schedule).workers|
        ensures !Begun(Exec(s, schedule).workers[k])
      {
        PastLoop(s, schedule);
        ExecInv(s, schedule);
        Undispatched(Exec(s, schedule), k);
      }
    }
  }

  lemma Undispatched(s: Config, k: nat)
    requires Inv(s) && s.next <= k < |s.workers|
    ensures s.workers[k].NotStarted?
  {
  }

  /** Let every spawned goroutine run. */
  lemma {:induction false} BeginAll(s: Config) returns (schedule: seq<Action>)
    requires Inv(s) && s.next == |s.checks|
    ensures Legal(s, schedule) && |Exec(s, schedule).workers| == |s.checks|
    ensures forall k :: 0 <= k < |s.checks| ==> Begun(Exec(s, schedule).workers[k])
    decreases Rank(s)
  {
    if i :| 0 <= i < |s.workers| && s.workers[i].Spawned? {
      StepInv(s, Begin(i));
      RankDrops(s, Begin(i));
      hide Inv, Rank, Begun;
      var rest := BeginAll(Apply(s, Begin(i)));
      schedule := [Begin(i)] + rest;
      assert schedule[1..] == rest;
    } else {
      schedule := [];
    }
  }

  /**
   * For any checks and any capacity: a run cancelled before its first dispatch returns with every
   * slot backfilled, and afterwards every check may still begin.
   */
  lemma CheckMayStartAfterReturn(checks: seq<Check>, capacity: nat, err: string)
      returns (schedule: seq<Action>, s: Config, late: seq<Action>)
    requires checks != [] && capacity >= 1
    ensures Reachable(checks, capacity, schedule, s) && s.main.Returned? && s.ctxErr == Some(err)
    ensures s.next == 0 && |s.results| == |checks|
    ensures forall j :: 0 <= j < |checks| ==> s.results[j] == NewCancelledResult(checks[j], Some(err))
    ensures Legal(s, late) && |Exec(s, late).workers| == |checks|
    ensures forall k :: 0 <= k < |checks| ==> Begun(Exec(s, late).workers[k])
  {
    hide Inv, NewCancelledResult, Begun;
    schedule, s := CancelledAtOnce(checks, capacity, err);
    ReachableInv(checks, capacity, schedule, s);
    InvSizes(s);
    forall j | 0 <= j < |checks|
      ensures s.results[j] == NewCancelledResult(checks[j], Some(err))
    {
      Undispatched(s, j);
      UnendedSlot(checks, capacity, schedule, s, j);
    }
    late := DriveToCheck(s, |checks| - 1);
    var t := Exec(s, late);
    ExecInv(s, late);
    ExecKeepsInput(s, late);
    var rest := BeginAll(t);
    ExecConcat(s, late, rest);
    late := late + rest;
  }

  /** The run that is cancelled before anything else happens. */
  lemma CancelledAtOnce(checks: seq<Check>, capacity: nat, err: string) returns (schedule: seq<Action>, s: Config)
    requires checks != [] && capacity >= 1
    ensures Reachable(checks, capacity, schedule, s) && s.main.Returned? && s.ctxErr == Some(err)
    ensures s.next == 0 && s.disp.AtSelect?
  {
    hide Inv;
    var s0 := Initial(checks, capacity);
    InitialInv(checks, capacity);
    var s1 := Apply(s0, Cancel(err));
    StepInv(s0, Cancel(err));
    CancelledRunReturns(s1);
    ExecKeepsInput(s1, MainSteps(s1));
    schedule := [Cancel(err)] + MainSteps(s1);
    assert schedule[1..] == MainSteps(s1);
    s := Exec(s0, schedule);
  }

  /** A slot whose check has not ended holds the context's error once the run has returned. */
  lemma UnendedSlot(checks: seq<Check>, capacity: nat, schedule: seq<Action>, s: Config, j: nat)
    requires Reachable(checks, capacity, schedule, s) && s.main.Returned? && j < |checks| == |s.workers|
    requires s.workers[j].NotStarted? || s.workers[j].Spawned? || s.workers[j].Running?
    ensures |s.results| == |checks| && s.ctxErr.Some?
    ensures s.results[j] == NewCancelledResult(checks[j], s.ctxErr)
  {
    ReachableInv(checks, capacity, schedule, s);
    WriteExists(s.log, j);
    var k :| 0 <= k < |s.log| && s.log[k].Wrote? && s.log[k].slot == j;
    assert GoodWrite(s, s.log[k]);
    var err :| IsBackfill(s, j, err, s.log[k].res);
  }
}
