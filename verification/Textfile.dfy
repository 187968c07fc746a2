/**
 * The atomic textfile write as a protocol over an abstract directory: any number of writers to one
 * destination, interleaved step by step, with a fault possible at every step.
 */
module Textfile {
  import opened Wrappers

  // ---------------------------------------------------------------- paths

  function TmpPath(dir: string, base: string, suffix: string): string {
    dir + "/" + base + ".tmp." + suffix
  }

  function FinalPath(dir: string, base: string): string {
    dir + "/" + base + ".prom"
  }

  /** Whatever the random suffix, the temp file is not the destination. */
  lemma TmpIsNotFinal(dir: string, base: string, suffix: string)
    ensures TmpPath(dir, base, suffix) != FinalPath(dir, base)
  {
    var n := |dir + "/" + base|;
    assert TmpPath(dir, base, suffix)[n + 1] == 't' && FinalPath(dir, base)[n + 1] == 'p';
  }

  predicate EndsIn(s: string, tail: string) {
    |tail| <= |s| && s[|s| - |tail|..] == tail
  }

  /** A file directly in dir, as far as its name allows. */
  predicate IsIn(dir: string, path: string) {
    dir + "/" <= path
  }

  /** What the collector reads: it ignores every other extension. */
  predicate IsCollected(path: string) {
    EndsIn(path, ".prom")
  }

  predicate IsHex(s: string) {
    forall i :: 0 <= i < |s| ==> '0' <= s[i] <= '9' || 'a' <= s[i] <= 'f'
  }

  /**
   * Both files are in the directory, so the rename stays on one file system; the destination has the
   * base name and is collected; the temp file, with a hexadecimal suffix, never is.
   */
  lemma PathsInDir(dir: string, base: string, suffix: string)
    ensures IsIn(dir, FinalPath(dir, base)) && IsIn(dir, TmpPath(dir, base, suffix))
    ensures IsCollected(FinalPath(dir, base)) && FinalPath(dir, base)[|dir| + 1..] == base + ".prom"
    ensures base + ".tmp." <= TmpPath(dir, base, suffix)[|dir| + 1..] && EndsIn(TmpPath(dir, base, suffix), suffix)
    ensures IsHex(suffix) ==> !IsCollected(TmpPath(dir, base, suffix))
  {
    var final, tmp := FinalPath(dir, base), TmpPath(dir, base, suffix);
    assert final == dir + "/" + (base + ".prom") == dir + "/" + base + ".prom";
    assert tmp == dir + "/" + (base + ".tmp." + suffix);
    assert tmp == (dir + "/" + base + ".tmp.") + suffix;
    if IsHex(suffix) {
      TmpNotCollected(dir + "/" + base + ".tmp", suffix);
      assert tmp == (dir + "/" + base + ".tmp") + "." + suffix;
    }
  }

  lemma TmpNotCollected(front: string, suffix: string)
    requires IsHex(suffix)
    ensures !IsCollected(front + "." + suffix)
  {
    var s := front + "." + suffix;
    assert s[|s| - 1] == if suffix == "" then '.' else suffix[|suffix| - 1];
    if IsCollected(s) { CollectedEnd(s); }
  }

  lemma CollectedEnd(s: string)
    requires IsCollected(s)
    ensures s != "" && s[|s| - 1] == 'm'
  {
    assert s[|s| - 1] == s[|s| - 5..][4] == ".prom"[4];
  }

  // ---------------------------------------------------------------- the state

  // creator: the writer that created the file; None for what was there before.
  datatype File = File(creator: Option<nat>, content: string)

  datatype Plan = Plan(tmp: string, rendering: string)

  // Writing(n): n characters are in the temp file. Failing: on the way to the remove. The outcome
  // records whether the remove succeeded; NotOpened: the exclusive create failed.
  datatype Phase =
    | Start | Writing(n: nat) | Written | Synced | Closed
    | Failing | Succeeded | Failed(removed: bool) | NotOpened

  datatype Config = Config(files: map<string, File>, final: string, plans: seq<Plan>, phases: seq<Phase>)

  function Initial(files: map<string, File>, final: string, plans: seq<Plan>): Config {
    Config(files, final, plans, seq(|plans|, _ => Start))
  }

  /** A directory nobody has written to yet, and temp paths other than the destination. */
  ghost predicate ValidStart(files: map<string, File>, final: string, plans: seq<Plan>) {
    && (forall p :: p in files ==> files[p].creator.None?)
    && (forall w :: 0 <= w < |plans| ==> plans[w].tmp != final)
  }

  datatype Op = OpenExcl | Append(k: nat) | EndWrite | Sync | Close | Rename | Remove

  // One step of writer w; fault makes the system call fail.
  datatype Step = Step(w: nat, op: Op, fault: bool)

  predicate Enabled(s: Config, a: Step) {
    a.w < |s.phases| == |s.plans|
    && var ph, plan := s.phases[a.w], s.plans[a.w];
       match a.op
       case OpenExcl => ph.Start?
       case Append(k) => ph.Writing? && ph.n + k <= |plan.rendering| && plan.tmp in s.files
       case EndWrite => ph.Writing? && (a.fault || ph.n == |plan.rendering|)
       case Sync => ph.Written?
       case Close => ph.Synced?
       case Rename => ph.Closed? && (a.fault || plan.tmp in s.files)
       case Remove => ph.Failing?
  }

  /** The step's effect on the directory. */
  function Files(s: Config, a: Step): map<string, File>
    requires Enabled(s, a)
  {
    var ph, plan := s.phases[a.w], s.plans[a.w];
    match a.op
    case OpenExcl =>
      if a.fault || plan.tmp in s.files then s.files else s.files[plan.tmp := File(Some(a.w), "")]
    case Append(k) =>
      if a.fault then s.files
      else
        var f := s.files[plan.tmp];
        s.files[plan.tmp := f.(content := f.content + plan.rendering[ph.n..ph.n + k])]
    case Rename =>
      if a.fault then s.files else (s.files - {plan.tmp})[s.final := s.files[plan.tmp]]
    case Remove => if a.fault then s.files else s.files - {plan.tmp}
    case _ => s.files
  }

  function NextPhase(s: Config, a: Step): Phase
    requires Enabled(s, a)
  {
    var ph, plan := s.phases[a.w], s.plans[a.w];
    match a.op
    case OpenExcl => if a.fault || plan.tmp in s.files then NotOpened else Writing(0)
    case Append(k) => if a.fault then Failing else Writing(ph.n + k)
    case EndWrite => if a.fault then Failing else Written
    case Sync => if a.fault then Failing else Synced
    case Close => if a.fault then Failing else Closed
    case Rename => if a.fault then Failing else Succeeded
    case Remove => Failed(!a.fault)
  }

  function Apply(s: Config, a: Step): Config
    requires Enabled(s, a)
  {
    s.(files := Files(s, a), phases := s.phases[a.w := NextPhase(s, a)])
  }

  predicate Legal(s: Config, steps: seq<Step>)
    decreases |steps|
  {
    steps == [] || (Enabled(s, steps[0]) && Legal(Apply(s, steps[0]), steps[1..]))
  }

  function Exec(s: Config, steps: seq<Step>): Config
    requires Legal(s, steps)
    decreases |steps|
  {
    if steps == [] then s else Exec(Apply(s, steps[0]), steps[1..])
  }

  // ---------------------------------------------------------------- the invariant

  predicate Owns(ph: Phase) {
    ph.Writing? || ph.Written? || ph.Synced? || ph.Closed? || ph.Failing?
  }

  /** While writer w is at work its temp file is its own and holds what it has written so far. */
  ghost predicate OwnTemp(s: Config, w: nat)
    requires w < |s.phases| == |s.plans|
  {
    var ph, plan := s.phases[w], s.plans[w];
    Owns(ph) ==>
      && plan.tmp in s.files && s.files[plan.tmp].creator == Some(w)
      && (ph.Writing? ==> ph.n <= |plan.rendering| && s.files[plan.tmp].content == plan.rendering[..ph.n])
      && (ph.Written? || ph.Synced? || ph.Closed? ==> s.files[plan.tmp].content == plan.rendering)
  }

  /** Where a file created by writer w can be. */
  ghost predicate Accounted(s: Config, p: string)
    requires p in s.files && |s.phases| == |s.plans|
  {
    s.files[p].creator.Some? ==>
      var w := s.files[p].creator.value;
      && w < |s.phases|
      && (p == s.final ==> s.phases[w].Succeeded? && s.files[p].content == s.plans[w].rendering)
      && (p != s.final ==> p == s.plans[w].tmp && (Owns(s.phases[w]) || s.phases[w] == Failed(false)))
  }

  /** What was in the directory before, the destination aside, is untouched. */
  ghost predicate OthersKept(s: Config, files0: map<string, File>) {
    && (forall p :: p in files0 && p != s.final ==> p in s.files && s.files[p] == files0[p])
    && (forall p :: p in s.files && s.files[p].creator.None? ==> p in files0 && s.files[p] == files0[p])
    && (s.final in files0 ==> s.final in s.files)
  }

  ghost predicate Inv(s: Config, files0: map<string, File>) {
    && |s.phases| == |s.plans|
    && (forall w :: 0 <= w < |s.plans| ==> s.plans[w].tmp != s.final)
    && (forall p :: p in files0 ==> files0[p].creator.None?)
    && (forall w :: 0 <= w < |s.phases| ==> OwnTemp(s, w))
    && (forall p :: p in s.files ==> Accounted(s, p))
    && OthersKept(s, files0)
    && (forall w :: 0 <= w < |s.phases| && s.phases[w].Succeeded? ==> s.final in s.files)
  }

  lemma StepOwnTemp(s: Config, files0: map<string, File>, a: Step, w: nat)
    requires Inv(s, files0) && Enabled(s, a) && w < |s.phases|
    ensures OwnTemp(Apply(s, a), w)
  {
    assert OwnTemp(s, a.w) && OwnTemp(s, w);
    if a.op.Append? && !a.fault && w == a.w {
      var n, r := s.phases[w].n, s.plans[w].rendering;
      assert r[..n] + r[n..n + a.op.k] == r[..n + a.op.k];
    }
    if a.op.EndWrite? && w == a.w {
      assert s.plans[w].rendering[..|s.plans[w].rendering|] == s.plans[w].rendering;
    }
  }

  lemma StepAccounted(s: Config, files0: map<string, File>, a: Step, p: string)
    requires Inv(s, files0) && Enabled(s, a) && p in Apply(s, a).files
    ensures Accounted(Apply(s, a), p)
  {
    assert OwnTemp(s, a.w);
    assert p in s.files ==> Accounted(s, p);
  }

  lemma StepOthers(s: Config, files0: map<string, File>, a: Step)
    requires Inv(s, files0) && Enabled(s, a)
    ensures OthersKept(Apply(s, a), files0)
  {
    assert OwnTemp(s, a.w);
  }

  lemma StepInv(s: Config, files0: map<string, File>, a: Step)
    requires Inv(s, files0) && Enabled(s, a)
    ensures Inv(Apply(s, a), files0)
  {
    var t := Apply(s, a);
    forall w | 0 <= w < |t.phases| ensures OwnTemp(t, w) {
      StepOwnTemp(s, files0, a, w);
    }
    forall p | p in t.files ensures Accounted(t, p) {
      StepAccounted(s, files0, a, p);
    }
    StepOthers(s, files0, a);
    assert OwnTemp(s, a.w);
  }

  lemma {:induction false} ExecInv(s: Config, files0: map<string, File>, steps: seq<Step>)
    requires Inv(s, files0) && Legal(s, steps)
    ensures Inv(Exec(s, steps), files0)
    decreases |steps|
  {
    if steps != [] {
      StepInv(s, files0, steps[0]);
      ExecInv(Apply(s, steps[0]), files0, steps[1..]);
    }
  }

  ghost predicate Reachable(files0: map<string, File>, final: string, plans: seq<Plan>, steps: seq<Step>, s: Config) {
    && ValidStart(files0, final, plans)
    && Legal(Initial(files0, final, plans), steps)
    && s == Exec(Initial(files0, final, plans), steps)
  }

  lemma {:induction false} ExecKeepsPlans(s: Config, steps: seq<Step>)
    requires Legal(s, steps)
    ensures Exec(s, steps).plans == s.plans && Exec(s, steps).final == s.final
    decreases |steps|
  {
    if steps != [] {
      ExecKeepsPlans(Apply(s, steps[0]), steps[1..]);
    }
  }

  lemma ReachableInv(files0: map<string, File>, final: string, plans: seq<Plan>, steps: seq<Step>, s: Config)
    requires Reachable(files0, final, plans, steps, s)
    ensures Inv(s, files0) && s.plans == plans && s.final == final
  {
    ExecInv(Initial(files0, final, plans), files0, steps);
    ExecKeepsPlans(Initial(files0, final, plans), steps);
  }

  // ---------------------------------------------------------------- theorems

  predicate SomeSuccess(s: Config) {
    exists w :: 0 <= w < |s.phases| && s.phases[w].Succeeded?
  }

  /**
   * At every moment of every interleaving the destination holds what it held before, or the
   * complete rendering of a writer that succeeded; it is never missing once it existed.
   */
  lemma ReadersSeeWholeFiles(files0: map<string, File>, final: string, plans: seq<Plan>, steps: seq<Step>, s: Config)
    requires Reachable(files0, final, plans, steps, s)
    ensures Inv(s, files0) && s.plans == plans
    ensures final in files0 ==> final in s.files
    ensures final in s.files ==>
              || (final in files0 && s.files[final] == files0[final])
              || exists w :: 0 <= w < |plans| && s.phases[w].Succeeded?
                             && s.files[final] == File(Some(w), plans[w].rendering)
    ensures SomeSuccess(s) <==> LastRenamer(steps).Some?
    ensures match LastRenamer(steps)
            case None =>
              (final in s.files <==> final in files0) && (final in s.files ==> s.files[final] == files0[final])
            case Some(w) => w < |plans| && final in s.files && s.files[final] == File(Some(w), plans[w].rendering)
  {
    ReachableInv(files0, final, plans, steps, s);
    if final in s.files {
      assert Accounted(s, final);
    }
    LastRenameWins(Initial(files0, final, plans), files0, steps);
  }

  /** The writer of the last rename that went through. */
  function LastRenamer(steps: seq<Step>): Option<nat> {
    if steps == [] then None
    else if LastRenamer(steps[1..]).Some? then LastRenamer(steps[1..])
    else if steps[0].op.Rename? && !steps[0].fault then Some(steps[0].w)
    else None
  }

  /** The destination holds the complete rendering of the last renamer; without one it is as it was. */
  lemma {:induction false} LastRenameWins(s: Config, files0: map<string, File>, steps: seq<Step>)
    requires Inv(s, files0) && Legal(s, steps)
    ensures var t := Exec(s, steps);
            && t.final == s.final && |t.phases| == |s.phases|
            && (SomeSuccess(t) <==> SomeSuccess(s) || LastRenamer(steps).Some?)
            && match LastRenamer(steps)
               case None =>
                 && (s.final in t.files <==> s.final in s.files)
                 && (s.final in t.files ==> t.files[s.final] == s.files[s.final])
               case Some(w) =>
                 w < |s.plans| && s.final in t.files && t.files[s.final] == File(Some(w), s.plans[w].rendering)
    decreases |steps|
  {
    if steps != [] {
      hide Inv, Enabled, Files, NextPhase;
      StepInv(s, files0, steps[0]);
      StepDestination(s, files0, steps[0]);
      LastRenameWins(Apply(s, steps[0]), files0, steps[1..]);
    }
  }

  /** Only a rename that goes through changes the destination, to the renamer's whole rendering. */
  lemma StepDestination(s: Config, files0: map<string, File>, a: Step)
    requires Inv(s, files0) && Enabled(s, a)
    ensures var t := Apply(s, a);
            && |t.phases| == |s.phases|
            && (SomeSuccess(t) <==> SomeSuccess(s) || (a.op.Rename? && !a.fault))
            && if a.op.Rename? && !a.fault
               then a.w < |s.plans| && s.final in t.files && t.files[s.final] == File(Some(a.w), s.plans[a.w].rendering)
               else (s.final in t.files <==> s.final in s.files)
                    && (s.final in t.files ==> t.files[s.final] == s.files[s.final])
  {
    hide Accounted, OthersKept;
    assert OwnTemp(s, a.w);
    var t := Apply(s, a);
    if a.op.Rename? && !a.fault {
      assert t.phases[a.w].Succeeded?;
    } else if w :| 0 <= w < |s.phases| && s.phases[w].Succeeded? {
      assert t.phases[w].Succeeded?;
    }
  }

  /** A writer removes and renames only a temp file it created itself, and renames it complete. */
  lemma OnlyOwnTempsTouched(files0: map<string, File>, final: string, plans: seq<Plan>, steps: seq<Step>,
      s: Config, a: Step)
    requires Reachable(files0, final, plans, steps, s) && Enabled(s, a)
    requires a.op.Remove? || a.op.Rename? || a.op.Append?
    ensures a.w < |plans| && plans[a.w].tmp in s.files && s.files[plans[a.w].tmp].creator == Some(a.w)
    ensures a.op.Rename? ==> s.files[plans[a.w].tmp].content == plans[a.w].rendering
    ensures forall p :: p in s.files && p != plans[a.w].tmp && p != final ==>
              p in Apply(s, a).files && Apply(s, a).files[p] == s.files[p]
  {
    ReachableInv(files0, final, plans, steps, s);
    assert OwnTemp(s, a.w);
  }

  /**
   * A failed writer whose remove succeeded, or that never opened, leaves no file; a successful one
   * only the destination.
   */
  lemma NoDebris(files0: map<string, File>, final: string, plans: seq<Plan>, steps: seq<Step>, s: Config, w: nat)
    requires Reachable(files0, final, plans, steps, s) && w < |plans|
    ensures |s.phases| == |plans|
    ensures s.phases[w] == Failed(true) || s.phases[w].NotOpened? ==>
              forall p :: p in s.files ==> s.files[p].creator != Some(w)
    ensures s.phases[w].Succeeded? ==> forall p :: p in s.files && s.files[p].creator == Some(w) ==> p == final
    ensures forall p :: p in files0 && p != final ==> p in s.files && s.files[p] == files0[p]
  {
    ReachableInv(files0, final, plans, steps, s);
    forall p | p in s.files ensures Accounted(s, p) {}
  }

  // ---------------------------------------------------------------- the order of a writer's calls

  /** The system calls of writer w, in order. */
  function OpsOf(steps: seq<Step>, w: nat): seq<Op> {
    if steps == [] then []
    else OpsOf(steps[..|steps| - 1], w)
         + if steps[|steps| - 1].w == w then [steps[|steps| - 1].op] else []
  }

  /** What a writer in this phase has done: the calls of the phase before, and one more. */
  predicate Done(ops: seq<Op>, ph: Phase)
    decreases |ops|
  {
    match ph
    case Start => ops == []
    case Writing(_) => ops != [] && ops[0] == OpenExcl && forall i :: 1 <= i < |ops| ==> ops[i].Append?
    case Written => ops != [] && ops[|ops| - 1] == EndWrite && Done(ops[..|ops| - 1], Writing(0))
    case Synced => ops != [] && ops[|ops| - 1] == Sync && Done(ops[..|ops| - 1], Written)
    case Closed => ops != [] && ops[|ops| - 1] == Close && Done(ops[..|ops| - 1], Synced)
    case Succeeded => ops != [] && ops[|ops| - 1] == Rename && Done(ops[..|ops| - 1], Closed)
    case Failing => ops != [] && ops[0] == OpenExcl
    case Failed(_) => |ops| >= 2 && ops[0] == OpenExcl && ops[|ops| - 1] == Remove
    case NotOpened => ops == [OpenExcl]
  }

  function LastCall(ph: Phase): Op
    requires ph.Written? || ph.Synced? || ph.Closed? || ph.Succeeded?
  {
    if ph.Written? then EndWrite else if ph.Synced? then Sync else if ph.Closed? then Close else Rename
  }

  function Before(ph: Phase): Phase
    requires ph.Written? || ph.Synced? || ph.Closed? || ph.Succeeded?
  {
    if ph.Written? then Writing(0) else if ph.Synced? then Written else if ph.Closed? then Synced else Closed
  }

  lemma {:induction false} FirstOp(ops: seq<Op>, ph: Phase)
    requires Done(ops, ph) && !ph.Start?
    ensures ops != [] && ops[0] == OpenExcl
    decreases |ops|
  {
    if ph.Written? || ph.Synced? || ph.Closed? || ph.Succeeded? {
      FirstOp(ops[..|ops| - 1], Before(ph));
    }
  }

  lemma OneMoreOp(s: Config, a: Step, ops: seq<Op>)
    requires Enabled(s, a) && Done(ops, s.phases[a.w])
    ensures Done(ops + [a.op], NextPhase(s, a))
  {
    var more := ops + [a.op];
    if ops != [] { assert more[0] == ops[0]; }
    if !s.phases[a.w].Start? { FirstOp(ops, s.phases[a.w]); }
    if s.phases[a.w].Writing? { AnyCount(ops, s.phases[a.w].n, 0); }
    assert more[..|more| - 1] == ops && more[|more| - 1] == a.op;
  }

  lemma AnyCount(ops: seq<Op>, n: nat, m: nat)
    ensures Done(ops, Writing(n)) <==> Done(ops, Writing(m))
  {
  }

  lemma Unwound(ops: seq<Op>, ph: Phase) returns (front: seq<Op>)
    requires Done(ops, ph) && (ph.Written? || ph.Synced? || ph.Closed? || ph.Succeeded?)
    ensures ops == front + [LastCall(ph)] && Done(front, Before(ph))
  {
    front := ops[..|ops| - 1];
  }

  /** Spelled out for a writer that went through. */
  lemma SucceededCalls(ops: seq<Op>) returns (writes: seq<Op>)
    requires Done(ops, Succeeded)
    ensures ops == [OpenExcl] + writes + [EndWrite, Sync, Close, Rename]
    ensures forall i :: 0 <= i < |writes| ==> writes[i].Append?
  {
    var a := Unwound(ops, Succeeded);
    var b := Unwound(a, Closed);
    var c := Unwound(b, Synced);
    var d := Unwound(c, Written);
    writes := d[1..];
    assert d == [OpenExcl] + writes;
    hide Done;
    assert d + [EndWrite] + [Sync] + [Close] + [Rename] == d + [EndWrite, Sync, Close, Rename];
  }

  /**
   * The calls of a writer, by the phase it is in. One that has replaced the destination has, in this
   * order and nothing else: created its temp file, written, flushed it to the disk, closed it, renamed it.
   */
  lemma {:induction false} CallsInOrder(s: Config, steps: seq<Step>, w: nat)
    requires Legal(s, steps) && w < |s.phases| && s.phases[w].Start?
    ensures w < |Exec(s, steps).phases| && Done(OpsOf(steps, w), Exec(s, steps).phases[w])
    decreases |steps|
  {
    if steps != [] {
      hide Enabled, Apply, Done;
      var front, last := steps[..|steps| - 1], steps[|steps| - 1];
      assert steps == front + [last];
      FrontOf(s, front, last);
      CallsInOrder(s, front, w);
      LastOp(Exec(s, front), last, OpsOf(front, w), w);
    }
  }

  lemma LastOp(s: Config, a: Step, ops: seq<Op>, w: nat)
    requires Enabled(s, a) && w < |s.phases| && Done(ops, s.phases[w])
    ensures w < |Apply(s, a).phases|
    ensures Done(ops + (if a.w == w then [a.op] else []), Apply(s, a).phases[w])
  {
    hide Done;
    if a.w == w {
      OneMoreOp(s, a, ops);
    } else {
      assert ops + [] == ops;
    }
  }

  lemma {:induction false} FrontOf(s: Config, front: seq<Step>, a: Step)
    requires Legal(s, front + [a])
    ensures Legal(s, front) && Enabled(Exec(s, front), a)
    ensures Exec(s, front + [a]) == Apply(Exec(s, front), a)
    decreases |front|
  {
    hide Enabled, Apply;
    if front == [] {
      assert front + [a] == [a] && [a][1..] == [];
    } else {
      assert (front + [a])[1..] == front[1..] + [a];
      FrontOf(Apply(s, front[0]), front[1..], a);
    }
  }

  // ---------------------------------------------------------------- one call

  lemma {:induction false} OneMore(s: Config, steps: seq<Step>, a: Step)
    requires Legal(s, steps) && Enabled(Exec(s, steps), a)
    ensures Legal(s, steps + [a]) && Exec(s, steps + [a]) == Apply(Exec(s, steps), a)
    decreases |steps|
  {
    hide Enabled, Apply;
    if steps == [] {
      assert steps + [a] == [a] && [a][1..] == [];
      assert Legal(Apply(s, a), []);
    } else {
      assert (steps + [a])[1..] == steps[1..] + [a];
      OneMore(Apply(s, steps[0]), steps[1..], a);
    }
  }

  function Settled(op: Op): Phase {
    if op.EndWrite? then Written else if op.Sync? then Synced else Closed
  }

  /** Writer w moved to phase ph; the rest of the protocol stands still. */
  ghost predicate Moved(s: Config, t: Config, w: nat, ph: Phase) {
    t.plans == s.plans && t.final == s.final && w < |s.phases| && t.phases == s.phases[w := ph]
  }

  /** A directory that only changes by steps of the protocol, all of them on record. */
  class Directory {
    var files: map<string, File>

    ghost var start: Config
    ghost var steps: seq<Step>
    ghost var state: Config

    ghost predicate Recorded()
      reads this
    {
      Legal(start, steps) && state == Exec(start, steps)
    }

    ghost predicate Valid()
      reads this
    {
      Recorded() && files == state.files
    }

    constructor (files: map<string, File>, ghost final: string, ghost plans: seq<Plan>)
      ensures Valid() && this.files == files && steps == [] && state == Initial(files, final, plans)
    {
      this.files, start, steps, state := files, Initial(files, final, plans), [], Initial(files, final, plans);
    }

    ghost method Record(a: Step)
      requires Recorded() && Enabled(state, a)
      modifies this`steps, this`state
      ensures Recorded() && steps == old(steps) + [a] && state == Apply(old(state), a)
    {
      OneMore(start, steps, a);
      steps, state := steps + [a], Apply(state, a);
    }

    method OpenExclusive(p: string, w: nat, fault: bool) returns (ok: bool)
      requires Valid() && Enabled(state, Step(w, OpenExcl, fault)) && p == state.plans[w].tmp
      modifies this
      ensures Valid() && start == old(start) && steps == old(steps) + [Step(w, OpenExcl, fault)]
      ensures state == Apply(old(state), Step(w, OpenExcl, fault))
      ensures ok == (!fault && p !in old(files)) && Moved(old(state), state, w, if ok then Writing(0) else NotOpened)
      ensures files == if ok then old(files)[p := File(Some(w), "")] else old(files)
    {
      ok := !fault && p !in files;
      if ok {
        files := files[p := File(Some(w), "")];
      }
      Record(Step(w, OpenExcl, fault));
    }

    method AppendTo(p: string, ghost w: nat, chunk: string)
      requires Valid() && Enabled(state, Step(w, Append(|chunk|), false)) && p == state.plans[w].tmp
      requires var n := state.phases[w].n; chunk == state.plans[w].rendering[n..n + |chunk|]
      modifies this
      ensures Valid() && start == old(start) && steps == old(steps) + [Step(w, Append(|chunk|), false)]
      ensures state == Apply(old(state), Step(w, Append(|chunk|), false))
      ensures Moved(old(state), state, w, Writing(old(state.phases[w].n) + |chunk|))
      ensures files == old(files)[p := old(files)[p].(content := old(files)[p].content + chunk)]
    {
      var f := files[p];
      files := files[p := f.(content := f.content + chunk)];
      Record(Step(w, Append(|chunk|), false));
    }

    /** The steps that leave the directory as it is: the end of the write, the sync, the close. */
    method Settle(ghost w: nat, ghost op: Op, fault: bool) returns (ok: bool)
      requires Valid() && Enabled(state, Step(w, op, fault)) && (op.EndWrite? || op.Sync? || op.Close?)
      modifies this`steps, this`state
      ensures Valid() && steps == old(steps) + [Step(w, op, fault)]
      ensures state == Apply(old(state), Step(w, op, fault))
      ensures ok == !fault && Moved(old(state), state, w, if fault then Failing else Settled(op))
    {
      Record(Step(w, op, fault));
      ok := !fault;
    }

    method RenameFile(from: string, to: string, ghost w: nat, fault: bool) returns (ok: bool)
      requires Valid() && Enabled(state, Step(w, Rename, fault)) && from == state.plans[w].tmp && to == state.final
      modifies this
      ensures Valid() && start == old(start) && steps == old(steps) + [Step(w, Rename, fault)]
      ensures state == Apply(old(state), Step(w, Rename, fault))
      ensures ok == !fault && Moved(old(state), state, w, if ok then Succeeded else Failing)
      ensures files == if ok then (old(files) - {from})[to := old(files)[from]] else old(files)
    {
      ok := !fault;
      if ok {
        files := (files - {from})[to := files[from]];
      }
      Record(Step(w, Rename, fault));
    }

    method RemoveFile(p: string, ghost w: nat, fault: bool) returns (ok: bool)
      requires Valid() && Enabled(state, Step(w, Remove, fault)) && p == state.plans[w].tmp
      modifies this
      ensures Valid() && start == old(start) && steps == old(steps) + [Step(w, Remove, fault)]
      ensures state == Apply(old(state), Step(w, Remove, fault))
      ensures ok == !fault && Moved(old(state), state, w, Failed(ok))
      ensures files == if ok then old(files) - {p} else old(files)
    {
      ok := !fault;
      if ok {
        files := files - {p};
      }
      Record(Step(w, Remove, fault));
    }
  }

  /** The directory's protocol knows writer w by this plan. */
  ghost predicate Knows(s: Config, w: nat, tmp: string, final: string, rendering: string) {
    w < |s.plans| == |s.phases| && s.plans[w] == Plan(tmp, rendering) && s.final == final
  }

  /** Steps before grew to steps after by steps of writer w alone. */
  ghost predicate OnlyBy(w: nat, before: seq<Step>, after: seq<Step>) {
    before <= after && forall k :: |before| <= k < |after| ==> after[k].w == w
  }

  datatype WriteResult = Ok(n: nat) | BadArgument | NoSuffix | CannotOpen | WriteFailed(removed: bool)

  // Which system calls fail, how much of the rendering a failing write leaves, and in what pieces
  // the write goes out.
  datatype Faults = Faults(
    suffix: bool, open: bool, write: bool, sync: bool, close: bool, rename: bool, remove: bool,
    pieces: seq<nat>)

  /** Write the pieces one after the other; a fault stops the write where it is. */
  method WriteAll(d: Directory, tmp: string, ghost w: nat, rendering: string, pieces: seq<nat>, fault: bool)
    returns (n: nat, ok: bool)
    requires d.Valid() && Knows(d.state, w, tmp, d.state.final, rendering) && d.state.phases[w] == Writing(0)
    requires tmp in d.files && d.files[tmp].content == ""
    modifies d
    ensures d.Valid() && d.start == old(d.start) && OnlyBy(w, old(d.steps), d.steps)
    ensures Knows(d.state, w, tmp, old(d.state.final), rendering)
    ensures d.state.phases[w] == if ok then Written else Failing
    ensures n <= |rendering| && ok == !fault && (ok ==> n == |rendering|)
    ensures d.files == old(d.files)[tmp := old(d.files)[tmp].(content := rendering[..n])]
  {
    hide Apply, Legal, Exec;
    n := 0;
    for i := 0 to |pieces|
      invariant n <= |rendering| && d.Valid() && d.start == old(d.start) && OnlyBy(w, old(d.steps), d.steps)
      invariant Knows(d.state, w, tmp, old(d.state.final), rendering) && d.state.phases[w] == Writing(n)
      invariant d.files == old(d.files)[tmp := old(d.files)[tmp].(content := rendering[..n])]
    {
      var k := if n + pieces[i] <= |rendering| then pieces[i] else |rendering| - n;
      WritePiece(d, tmp, w, rendering, n, k);
      n := n + k;
    }
    if !fault {
      WritePiece(d, tmp, w, rendering, n, |rendering| - n);
      n := |rendering|;
    }
    ok := d.Settle(w, EndWrite, fault);
  }

  method WritePiece(d: Directory, tmp: string, ghost w: nat, rendering: string, n: nat, k: nat)
    requires n + k <= |rendering| && d.Valid() && Knows(d.state, w, tmp, d.state.final, rendering)
    requires d.state.phases[w] == Writing(n) && tmp in d.files && d.files[tmp].content == rendering[..n]
    modifies d
    ensures d.Valid() && d.start == old(d.start) && OnlyBy(w, old(d.steps), d.steps)
    ensures Knows(d.state, w, tmp, old(d.state.final), rendering) && d.state.phases[w] == Writing(n + k)
    ensures d.files == old(d.files)[tmp := old(d.files)[tmp].(content := rendering[..n + k])]
  {
    hide Apply, Legal, Exec;
    d.AppendTo(tmp, w, rendering[n..n + k]);
    assert rendering[..n] + rendering[n..n + k] == rendering[..n + k];
  }

  /** What one call, undisturbed, leaves in the directory. */
  ghost predicate Outcome(before: map<string, File>, after: map<string, File>, tmp: string, final: string, w: nat,
                          rendering: string, r: WriteResult)
  {
    match r
    case Ok(n) => n == |rendering| && after == before[final := File(Some(w), rendering)]
    case WriteFailed(removed) =>
      if removed then after == before
      else exists n :: 0 <= n <= |rendering| && after == before[tmp := File(Some(w), rendering[..n])]
    case _ => after == before
  }

  /** How the call ended, as the protocol sees writer w. */
  ghost function PhaseAfter(r: WriteResult): Phase {
    match r
    case Ok(_) => Succeeded
    case WriteFailed(removed) => Failed(removed)
    case CannotOpen => NotOpened
    case _ => Start
  }

  method Abort(d: Directory, tmp: string, ghost w: nat, fault: bool) returns (r: WriteResult)
    requires d.Valid() && w < |d.state.plans| == |d.state.phases|
    requires d.state.plans[w].tmp == tmp && d.state.phases[w].Failing?
    modifies d
    ensures d.Valid() && d.start == old(d.start) && OnlyBy(w, old(d.steps), d.steps)
    ensures |d.state.phases| == old(|d.state.phases|) && d.state.phases[w] == PhaseAfter(r)
    ensures r == WriteFailed(!fault)
    ensures d.files == if fault then old(d.files) else old(d.files) - {tmp}
  {
    var removed := d.RemoveFile(tmp, w, fault);
    return WriteFailed(removed);
  }

  /**
   * One call is one writer of the protocol: every change it makes to the directory is a legal step
   * of writer w, and its result is the phase the writer ends in.
   */
  method WriteTextfileAtomic(d: Directory, dir: string, base: string, suffix: string, w: nat, rendering: string,
                             f: Faults)
    returns (r: WriteResult)
    requires d.Valid() && Knows(d.state, w, TmpPath(dir, base, suffix), FinalPath(dir, base), rendering)
    requires d.state.phases[w].Start?
    modifies d
    ensures d.Valid() && d.start == old(d.start) && OnlyBy(w, old(d.steps), d.steps)
    ensures w < |d.state.phases| && d.state.phases[w] == PhaseAfter(r)
    ensures Outcome(old(d.files), d.files, TmpPath(dir, base, suffix), FinalPath(dir, base), w, rendering, r)
    ensures r.BadArgument? <==> dir == "" || base == ""
    ensures r.Ok? <==> dir != "" && base != "" && TmpPath(dir, base, suffix) !in old(d.files)
                       && !f.suffix && !f.open && !f.write && !f.sync && !f.close && !f.rename
  {
    if dir == "" {
      return BadArgument;
    }
    if base == "" {
      return BadArgument;
    }
    if f.suffix {
      return NoSuffix;
    }
    var tmpPath, finalPath := TmpPath(dir, base, suffix), FinalPath(dir, base);
    TmpIsNotFinal(dir, base, suffix);
    hide TmpPath, FinalPath;
    r := WriteAndRename(d, tmpPath, finalPath, w, rendering, f);
  }

  method WriteAndRename(d: Directory, tmpPath: string, finalPath: string, w: nat, rendering: string, f: Faults)
    returns (r: WriteResult)
    requires d.Valid() && Knows(d.state, w, tmpPath, finalPath, rendering)
    requires d.state.phases[w].Start? && tmpPath != finalPath
    modifies d
    ensures d.Valid() && d.start == old(d.start) && OnlyBy(w, old(d.steps), d.steps)
    ensures w < |d.state.phases| && d.state.phases[w] == PhaseAfter(r)
    ensures Outcome(old(d.files), d.files, tmpPath, finalPath, w, rendering, r)
    ensures r.Ok? || r.CannotOpen? || r.WriteFailed?
    ensures r.Ok? <==> tmpPath !in old(d.files) && !f.open && !f.write && !f.sync && !f.close && !f.rename
  {
    hide Apply, Legal, Exec;
    ghost var before := d.files;
    var created := d.OpenExclusive(tmpPath, w, f.open);
    if !created {
      return CannotOpen;
    }
    var n, written := WriteAll(d, tmpPath, w, rendering, f.pieces, f.write);
    assert d.files == before[tmpPath := File(Some(w), rendering[..n])];
    assert d.files - {tmpPath} == before;
    if !written {
      r := Abort(d, tmpPath, w, f.remove);
      return;
    }
    assert rendering[..n] == rendering;
    r := SettleAndRename(d, tmpPath, finalPath, w, rendering, f, before);
  }

  /** The complete temp file is synced, closed and renamed; a fault on the way removes it. */
  method SettleAndRename(d: Directory, tmpPath: string, finalPath: string, w: nat, rendering: string, f: Faults,
                         ghost before: map<string, File>)
    returns (r: WriteResult)
    requires d.Valid() && Knows(d.state, w, tmpPath, finalPath, rendering)
    requires d.state.phases[w].Written? && tmpPath != finalPath
    requires tmpPath !in before && d.files == before[tmpPath := File(Some(w), rendering)]
    modifies d
    ensures d.Valid() && d.start == old(d.start) && OnlyBy(w, old(d.steps), d.steps)
    ensures w < |d.state.phases| && d.state.phases[w] == PhaseAfter(r)
    ensures Outcome(before, d.files, tmpPath, finalPath, w, rendering, r)
    ensures r.Ok? || r.WriteFailed?
    ensures r.Ok? <==> !f.sync && !f.close && !f.rename
  {
    hide Apply, Legal, Exec;
    assert rendering[..|rendering|] == rendering;
    assert d.files - {tmpPath} == before;
    var settled := d.Settle(w, Sync, f.sync);
    if settled {
      settled := d.Settle(w, Close, f.close);
    }
    if settled {
      settled := d.RenameFile(tmpPath, finalPath, w, f.rename);
      if settled {
        return Ok(|rendering|);
      }
    }
    r := Abort(d, tmpPath, w, f.remove);
  }
}
