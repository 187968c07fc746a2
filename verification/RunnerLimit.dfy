/** How many checks are at work at once, in terms of the Runner's own setting. */
module RunnerLimit {
  import opened Wrappers
  import opened Runner
  import opened RunnerTheorems
  import opened RunnerOrder

  /** What Concurrency asks for: so many checks at once, or one for each CPU. */
  predicate IsLimit(concurrency: int, numCPU: nat, limit: nat) {
    if concurrency >= 1 then limit == concurrency else limit == numCPU
  }

  /** The workers that are dispatched and have not given their token back. */
  function AtWork(s: Config): set<nat> {
    set i: nat | i < |s.workers| && !s.workers[i].NotStarted? && !s.workers[i].Released? && !s.workers[i].Gone?
  }

  lemma {:induction false} AtWorkIsHolders(ws: seq<Worker>)
    ensures |set i: nat | i < |ws| && HoldsToken(ws[i])| == Holders(ws)
  {
    if ws != [] {
      var t := ws[..|ws| - 1];
      AtWorkIsHolders(t);
      HoldersConcat(t, [ws[|ws| - 1]]);
      assert ws == t + [ws[|ws| - 1]];
      assert Holders([ws[|ws| - 1]]) == if HoldsToken(ws[|ws| - 1]) then 1 else 0 by {
        assert [ws[|ws| - 1]][1..] == [];
      }
      var front := set i: nat | i < |t| && HoldsToken(t[i]);
      var all := set i: nat | i < |ws| && HoldsToken(ws[i]);
      if HoldsToken(ws[|ws| - 1]) {
        assert all == front + {|t|};
      } else {
        assert all == front;
      }
    }
  }

  lemma AtWorkCount(s: Config)
    ensures |AtWork(s)| == Holders(s.workers)
  {
    AtWorkIsHolders(s.workers);
    assert AtWork(s) == set i: nat | i < |s.workers| && HoldsToken(s.workers[i]);
  }

  /** No run has more than limit checks at work. */
  ghost predicate NeverMore(checks: seq<Check>, capacity: nat, limit: nat) {
    forall schedule :: Legal(Initial(checks, capacity), schedule) ==>
      |AtWork(Exec(Initial(checks, capacity), schedule))| <= limit
  }

  // ---------------------------------------------------------------- filling the semaphore

  /** k checks dispatched, none of them begun, and the dispatcher ready for the next. */
  ghost predicate Filled(s: Config, k: nat) {
    && |s.workers| == |s.checks| && k == s.next == s.tokens <= |s.checks|
    && (forall j :: 0 <= j < k ==> s.workers[j].Spawned?)
    && (k < |s.checks| ==> s.disp.AtSelect?)
  }

  lemma {:induction false} Fill(checks: seq<Check>, capacity: nat, k: nat) returns (schedule: seq<Action>)
    requires k <= |checks| && k <= capacity
    ensures Legal(Initial(checks, capacity), schedule) && Filled(Exec(Initial(checks, capacity), schedule), k)
  {
    var s0 := Initial(checks, capacity);
    schedule := [];
    if k > 0 {
      schedule := Fill(checks, capacity, k - 1);
      var s := Exec(s0, schedule);
      ExecKeepsInput(s0, schedule);
      FillOneMore(s, k - 1);
      ExecConcat(s0, schedule, [Acquire, Spawn]);
      schedule := schedule + [Acquire, Spawn];
    }
  }

  lemma FillOneMore(s: Config, k: nat)
    requires Filled(s, k) && k < |s.checks| && k < s.capacity
    ensures Legal(s, [Acquire, Spawn]) && Filled(Exec(s, [Acquire, Spawn]), k + 1)
  {
    var t := Apply(s, Acquire);
    var u := Apply(t, Spawn);
    assert [Acquire, Spawn][1..] == [Spawn] && [Spawn][1..] == [];
    assert Legal(u, []) && Legal(t, [Spawn]) && Exec(t, [Spawn]) == u;
  }

  lemma FilledAtWork(s: Config, k: nat)
    requires Filled(s, k)
    ensures |AtWork(s)| >= k
  {
    hide AtWork;
    AtWorkCount(s);
    var ws := s.workers;
    assert ws == ws[..k] + ws[k..];
    HoldersConcat(ws[..k], ws[k..]);
    AllHold(ws[..k]);
  }

  lemma {:induction false} AllHold(ws: seq<Worker>)
    requires forall j :: 0 <= j < |ws| ==> HoldsToken(ws[j])
    ensures Holders(ws) == |ws|
  {
    if ws != [] { AllHold(ws[1..]); }
  }

  // ---------------------------------------------------------------- the limit

  /**
   * The limit Concurrency asks for is the least one no run exceeds: at most that many checks are at work
   * in any state of any run, and some run has that many, or all checks, at work at once.
   */
  lemma ConcurrencyIsTheLimit(checks: seq<Check>, concurrency: int, numCPU: nat, limit: nat, bound: nat)
    requires numCPU >= 1 && IsLimit(concurrency, numCPU, limit)
    ensures NeverMore(checks, Capacity(concurrency, numCPU), bound) <==> limit <= bound || |checks| <= bound
  {
    var capacity := Capacity(concurrency, numCPU);
    var s0 := Initial(checks, capacity);
    if limit <= bound || |checks| <= bound {
      forall schedule | Legal(s0, schedule) ensures |AtWork(Exec(s0, schedule))| <= bound {
        AtWorkBounded(checks, capacity, schedule);
      }
    } else {
      var k := if limit <= |checks| then limit else |checks|;
      var schedule := Fill(checks, capacity, k);
      FilledAtWork(Exec(s0, schedule), k);
    }
  }

  lemma AtWorkBounded(checks: seq<Check>, capacity: nat, schedule: seq<Action>)
    requires capacity >= 1 && Legal(Initial(checks, capacity), schedule)
    ensures |AtWork(Exec(Initial(checks, capacity), schedule))| <= capacity
    ensures |AtWork(Exec(Initial(checks, capacity), schedule))| <= |checks|
  {
    hide AtWork;
    var s := Exec(Initial(checks, capacity), schedule);
    TokensBounded(checks, capacity, schedule, s);
    AtWorkCount(s);
    HoldersAtMost(s.workers);
  }

  lemma {:induction false} HoldersAtMost(ws: seq<Worker>)
    ensures Holders(ws) <= |ws|
  {
    if ws != [] { HoldersAtMost(ws[1..]); }
  }

  /** Every state of this run has at most limit checks at work. */
  ghost predicate WithinLimit(start: Config, schedule: seq<Action>, limit: nat) {
    forall k: nat :: k <= |schedule| ==> Legal(start, schedule[..k]) && |AtWork(Exec(start, schedule[..k]))| <= limit
  }

  lemma RunWithinLimit(checks: seq<Check>, capacity: nat, schedule: seq<Action>)
    requires capacity >= 1 && Legal(Initial(checks, capacity), schedule)
    ensures WithinLimit(Initial(checks, capacity), schedule, capacity)
  {
    hide AtWork;
    var s0 := Initial(checks, capacity);
    forall k: nat | k <= |schedule|
      ensures Legal(s0, schedule[..k]) && |AtWork(Exec(s0, schedule[..k]))| <= capacity
    {
      FrontLegal(s0, schedule, k);
      AtWorkBounded(checks, capacity, schedule[..k]);
    }
  }

  lemma {:induction false} FrontLegal(s: Config, schedule: seq<Action>, k: nat)
    requires Legal(s, schedule) && k <= |schedule|
    ensures Legal(s, schedule[..k])
    decreases |schedule|
  {
    hide Enabled, Apply;
    if k > 0 {
      FrontLegal(Apply(s, schedule[0]), schedule[1..], k - 1);
      assert schedule[..k][1..] == schedule[1..][..k - 1];
    }
  }

  /** In input order: exactly when the setting allows one check at a time, or there is nothing to reorder. */
  lemma ConcurrencyOrders(checks: seq<Check>, concurrency: int, numCPU: nat)
    requires numCPU >= 1
    ensures (forall schedule :: Legal(Initial(checks, Capacity(concurrency, numCPU)), schedule) ==>
               InOrder(Exec(Initial(checks, Capacity(concurrency, numCPU)), schedule).log))
       <==> IsLimit(concurrency, numCPU, 1) || |checks| < 2
  {
    StartsInInputOrder(checks, Capacity(concurrency, numCPU));
  }

  // ---------------------------------------------------------------- proposals

  /** The proposals that are taken: each is, when its turn comes, enabled or passed over. */
  function Taken(s: Config, proposals: seq<Action>): seq<Action>
    decreases |proposals|
  {
    if proposals == [] then []
    else if Enabled(s, proposals[0]) then [proposals[0]] + Taken(Apply(s, proposals[0]), proposals[1..])
    else Taken(s, proposals[1..])
  }

  lemma {:induction false} TakenSnoc(s: Config, proposals: seq<Action>, a: Action)
    ensures Legal(s, Taken(s, proposals))
    ensures Taken(s, proposals + [a])
         == Taken(s, proposals) + if Enabled(Exec(s, Taken(s, proposals)), a) then [a] else []
    decreases |proposals|
  {
    hide Enabled, Apply;
    if proposals == [] {
      assert proposals + [a] == [a] && [a][1..] == [];
    } else {
      assert (proposals + [a])[1..] == proposals[1..] + [a];
      if Enabled(s, proposals[0]) {
        var t := Apply(s, proposals[0]);
        TakenSnoc(t, proposals[1..], a);
        assert Taken(s, proposals)[1..] == Taken(t, proposals[1..]);
      } else {
        TakenSnoc(s, proposals[1..], a);
      }
    }
  }

  /** A legal schedule is taken as it is: the scheduler can have any run. */
  lemma {:induction false} LegalIsTaken(s: Config, proposals: seq<Action>)
    ensures Taken(s, proposals) == proposals <==> Legal(s, proposals)
    decreases |proposals|
  {
    hide Enabled, Apply;
    if proposals != [] {
      if Enabled(s, proposals[0]) {
        LegalIsTaken(Apply(s, proposals[0]), proposals[1..]);
        assert proposals == [proposals[0]] + proposals[1..];
        assert Taken(s, proposals)[1..] == Taken(Apply(s, proposals[0]), proposals[1..]);
      } else {
        TakenIsShorter(s, proposals[1..]);
      }
    }
  }

  lemma {:induction false} TakenAreProposals(s: Config, proposals: seq<Action>)
    ensures forall a :: a in Taken(s, proposals) ==> a in proposals
    decreases |proposals|
  {
    hide Enabled, Apply;
    if proposals != [] {
      if Enabled(s, proposals[0]) {
        TakenAreProposals(Apply(s, proposals[0]), proposals[1..]);
      } else {
        TakenAreProposals(s, proposals[1..]);
      }
    }
  }

  lemma {:induction false} TakenIsShorter(s: Config, proposals: seq<Action>)
    ensures |Taken(s, proposals)| <= |proposals|
    decreases |proposals|
  {
    hide Enabled, Apply;
    if proposals != [] {
      if Enabled(s, proposals[0]) {
        TakenIsShorter(Apply(s, proposals[0]), proposals[1..]);
      } else {
        TakenIsShorter(s, proposals[1..]);
      }
    }
  }
}
