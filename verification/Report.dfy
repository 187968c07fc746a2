/**
 * Results, their tally, and the three verdicts computed from the tally:
 * the process exit code, the SARIF executionSuccessful flag and the human footer.
 */
module Report {
  import opened Buffers
  import opened Sequences

  // State is a string in the program; every text other than the four constants is Unrecognised.
  datatype State = Pass | Fail | Skip | Error | Unrecognised(text: string)

  type Severity = string

  const SEVERITY_REQUIRED: Severity := "required"

  predicate IsRequired(s: Severity) {
    s == SEVERITY_REQUIRED
  }

  datatype Result = Result(checkId: string, title: string, severity: Severity,
                           state: State, detail: string, err: string)

  datatype Bucket = Bucket(pass: nat, fail: nat, error: nat)

  datatype Summary = Summary(total: nat, pass: nat, fail: nat, skip: nat, error: nat, required: Bucket)

  // ---------------------------------------------------------------- counting

  /** How many results are in state st; with requiredOnly, among the required ones. */
  function Count(results: seq<Result>, st: State, requiredOnly: bool): nat {
    if results == [] then 0
    else
      (if results[0].state == st && (requiredOnly ==> IsRequired(results[0].severity)) then 1 else 0)
      + Count(results[1..], st, requiredOnly)
  }

  function SummaryOf(results: seq<Result>): Summary {
    Summary(|results|,
            Count(results, Pass, false), Count(results, Fail, false),
            Count(results, Skip, false), Count(results, Error, false),
            Bucket(Count(results, Pass, true), Count(results, Fail, true), Count(results, Error, true)))
  }

  lemma {:induction false} CountConcat(a: seq<Result>, b: seq<Result>, st: State, requiredOnly: bool)
    ensures Count(a + b, st, requiredOnly) == Count(a, st, requiredOnly) + Count(b, st, requiredOnly)
  {
    if a == [] {
      assert a + b == b;
    } else {
      assert (a + b)[1..] == a[1..] + b;
      CountConcat(a[1..], b, st, requiredOnly);
    }
  }

  lemma CountSingle(r: Result)
    ensures forall st, requiredOnly ::
              Count([r], st, requiredOnly)
              == if r.state == st && (requiredOnly ==> IsRequired(r.severity)) then 1 else 0
  {
  }

  lemma CountAt(results: seq<Result>, i: nat, st: State, requiredOnly: bool)
    requires i < |results|
    ensures Count(results, st, requiredOnly)
         == Count(results[..i], st, requiredOnly) + Count([results[i]], st, requiredOnly)
            + Count(results[i + 1..], st, requiredOnly)
  {
    CountConcat(results[..i] + [results[i]], results[i + 1..], st, requiredOnly);
    CountConcat(results[..i], [results[i]], st, requiredOnly);
    assert results == results[..i] + [results[i]] + results[i + 1..];
  }

  lemma {:induction false} CountPositive(results: seq<Result>, st: State, requiredOnly: bool)
    ensures Count(results, st, requiredOnly) > 0
       <==> exists r :: r in results && r.state == st && (requiredOnly ==> IsRequired(r.severity))
  {
    if results != [] {
      CountPositive(results[1..], st, requiredOnly);
      assert results == [results[0]] + results[1..];
    }
  }

  lemma {:induction false} CountPermutation(a: seq<Result>, b: seq<Result>, st: State, requiredOnly: bool)
    requires multiset(a) == multiset(b)
    ensures Count(a, st, requiredOnly) == Count(b, st, requiredOnly)
  {
    if a == [] {
      EmptyMultiset(b);
    } else {
      assert a[0] in multiset(a);
      var i := Occurrence(b, a[0]);
      TailMultiset(a);
      CountPermutation(a[1..], b[..i] + b[i + 1..], st, requiredOnly);
      CountAt(b, i, st, requiredOnly);
      CountConcat(b[..i], b[i + 1..], st, requiredOnly);
    }
  }

  function Plus(a: Summary, b: Summary): Summary {
    Summary(a.total + b.total, a.pass + b.pass, a.fail + b.fail, a.skip + b.skip, a.error + b.error,
            Bucket(a.required.pass + b.required.pass, a.required.fail + b.required.fail,
                   a.required.error + b.required.error))
  }

  /** The places of the results in state st, all of them or the required ones. */
  function Places(results: seq<Result>, st: State, requiredOnly: bool): set<nat> {
    set i: nat | i < |results| && Counted(results[i], st, requiredOnly)
  }

  predicate Counted(r: Result, st: State, requiredOnly: bool) {
    r.state == st && (requiredOnly ==> r.severity == "required")
  }

  lemma {:induction false} CountIsPlaces(results: seq<Result>, st: State, requiredOnly: bool)
    ensures Count(results, st, requiredOnly) == |Places(results, st, requiredOnly)|
  {
    if results != [] {
      hide Count, Places;
      var front, last := results[..|results| - 1], results[|results| - 1];
      CountIsPlaces(front, st, requiredOnly);
      CountConcat(front, [last], st, requiredOnly);
      CountSingle(last);
      assert results == front + [last];
      PlacesSnoc(front, last, st, requiredOnly);
    }
  }

  lemma PlacesSnoc(front: seq<Result>, last: Result, st: State, requiredOnly: bool)
    ensures |Places(front + [last], st, requiredOnly)|
         == |Places(front, st, requiredOnly)|
            + if Counted(last, st, requiredOnly) then 1 else 0
  {
    hide Counted;
    var before, after := Places(front, st, requiredOnly), Places(front + [last], st, requiredOnly);
    var all := front + [last];
    assert all[|front|] == last && forall i :: 0 <= i < |front| ==> all[i] == front[i];
    forall i: nat ensures i in after <==> i in before || (i == |front| && Counted(last, st, requiredOnly)) {
    }
    if Counted(last, st, requiredOnly) {
      assert after == before + {|front|};
    } else {
      assert after == before;
    }
  }

  /** Every figure of the tally is the number of results it stands for. */
  lemma SummaryMeaning(results: seq<Result>)
    ensures var s := SummaryOf(results);
      && s.total == |results|
      && s.pass == |Places(results, Pass, false)| && s.fail == |Places(results, Fail, false)|
      && s.skip == |Places(results, Skip, false)| && s.error == |Places(results, Error, false)|
      && s.required.pass == |Places(results, Pass, true)| && s.required.fail == |Places(results, Fail, true)|
      && s.required.error == |Places(results, Error, true)|
  {
    hide Count, Places;
    CountIsPlaces(results, Pass, false);
    CountIsPlaces(results, Fail, false);
    CountIsPlaces(results, Skip, false);
    CountIsPlaces(results, Error, false);
    CountIsPlaces(results, Pass, true);
    CountIsPlaces(results, Fail, true);
    CountIsPlaces(results, Error, true);
  }

  lemma SummaryAdditive(a: seq<Result>, b: seq<Result>)
    ensures SummaryOf(a + b) == Plus(SummaryOf(a), SummaryOf(b))
  {
    hide Count;
    CountConcat(a, b, Pass, false);
    CountConcat(a, b, Fail, false);
    CountConcat(a, b, Skip, false);
    CountConcat(a, b, Error, false);
    CountConcat(a, b, Pass, true);
    CountConcat(a, b, Fail, true);
    CountConcat(a, b, Error, true);
  }

  lemma SummaryPermutation(a: seq<Result>, b: seq<Result>)
    requires multiset(a) == multiset(b)
    ensures SummaryOf(a) == SummaryOf(b)
  {
    hide Count;
    assert |a| == |multiset(a)| == |multiset(b)| == |b|;
    CountPermutation(a, b, Pass, false);
    CountPermutation(a, b, Fail, false);
    CountPermutation(a, b, Skip, false);
    CountPermutation(a, b, Error, false);
    CountPermutation(a, b, Pass, true);
    CountPermutation(a, b, Fail, true);
    CountPermutation(a, b, Error, true);
  }

  /** NewSummary: one pass that increments the counters of the tally. */
  method NewSummary(results: seq<Result>) returns (s: Summary)
    ensures s == SummaryOf(results)
  {
    s := Summary(|results|, 0, 0, 0, 0, Bucket(0, 0, 0));
    for i := 0 to |results|
      invariant s == SummaryOf(results[..i]).(total := |results|)
    {
      var r := results[i];
      match r.state {
        case Pass => s := s.(pass := s.pass + 1);
        case Fail => s := s.(fail := s.fail + 1);
        case Skip => s := s.(skip := s.skip + 1);
        case Error => s := s.(error := s.error + 1);
        case Unrecognised(_) =>
      }
      if IsRequired(r.severity) {
        match r.state {
          case Pass => s := s.(required := s.required.(pass := s.required.pass + 1));
          case Fail => s := s.(required := s.required.(fail := s.required.fail + 1));
          case Error => s := s.(required := s.required.(error := s.required.error + 1));
          case _ =>
        }
      }
      SummaryAdditive(results[..i], [r]);
      CountSingle(r);
      assert results[..i + 1] == results[..i] + [r];
    }
    assert results[..|results|] == results;
  }

  // ---------------------------------------------------------------- verdicts

  const EXIT_OK := 0
  const EXIT_MITIGATION_GAP := 2
  const EXIT_CHECK_ERROR := 4

  function ComputeExit(s: Summary): int {
    if s.required.fail > 0 then EXIT_MITIGATION_GAP
    else if s.required.error > 0 then EXIT_CHECK_ERROR
    else EXIT_OK
  }

  predicate ExecutionSuccessful(s: Summary) {
    s.required.fail == 0 && s.required.error == 0
  }

  const ANSI_RED_BOLD := "\U{1B}[31m\U{1B}[1m"
  const ANSI_GREEN_BOLD := "\U{1B}[32m\U{1B}[1m"
  const ANSI_RESET := "\U{1B}[0m"

  function VerdictLine(passed: bool, useColor: bool): string {
    if !useColor then "validator result: " + (if passed then "PASS" else "FAIL") + "\n"
    else if passed then "validator result: " + ANSI_GREEN_BOLD + "PASS" + ANSI_RESET + "\n"
    else "validator result: " + ANSI_RED_BOLD + "FAIL" + ANSI_RESET + "\n"
  }

  /** The verdict line of the human footer; no colour, no reset. */
  method WriteFooter(buf: Buffer, s: Summary, useColor: bool)
    modifies buf
    ensures buf.text == old(buf.text) + VerdictLine(ExecutionSuccessful(s), useColor)
  {
    var passed := s.required.fail == 0 && s.required.error == 0;
    var verdict := "PASS";
    var color := "";
    if !passed {
      verdict := "FAIL";
    }
    if useColor {
      if passed {
        color := ANSI_GREEN_BOLD;
      } else {
        color := ANSI_RED_BOLD;
      }
    }
    var reset := "";
    if color != "" {
      reset := ANSI_RESET;
    }
    buf.Append("validator result: " + color + verdict + reset + "\n");
    assert "" + verdict + "" == verdict;
  }

  predicate RequiredIn(results: seq<Result>, st: State) {
    exists r :: r in results && r.state == st && r.severity == "required"
  }

  /** The exit code, characterised on the results themselves. */
  lemma ExitCodeMeaning(results: seq<Result>)
    ensures ComputeExit(SummaryOf(results)) == 2 <==> RequiredIn(results, Fail)
    ensures ComputeExit(SummaryOf(results)) == 4 <==> RequiredIn(results, Error) && !RequiredIn(results, Fail)
    ensures ComputeExit(SummaryOf(results)) == 0 <==> !RequiredIn(results, Error) && !RequiredIn(results, Fail)
  {
    CountPositive(results, Fail, true);
    CountPositive(results, Error, true);
  }

  /** The first footer line, coloured for a terminal or not. */
  predicate SaysPass(line: string) {
    line == "validator result: PASS\n" || line == "validator result: \U{1B}[32m\U{1B}[1mPASS\U{1B}[0m\n"
  }

  predicate SaysFail(line: string) {
    line == "validator result: FAIL\n" || line == "validator result: \U{1B}[31m\U{1B}[1mFAIL\U{1B}[0m\n"
  }

  lemma SaysOne(passed: bool, useColor: bool)
    ensures SaysPass(VerdictLine(passed, useColor)) <==> passed
    ensures SaysFail(VerdictLine(passed, useColor)) <==> !passed
    ensures '\U{1B}' in VerdictLine(passed, useColor) <==> useColor
  {
    Spelled(passed, useColor);
    hide VerdictLine;
    PassIsNotFail(VerdictLine(passed, useColor));
    Coloured();
  }

  lemma Spelled(passed: bool, useColor: bool)
    ensures VerdictLine(passed, useColor)
         == if !useColor then (if passed then "validator result: PASS\n" else "validator result: FAIL\n")
            else if passed then "validator result: \U{1B}[32m\U{1B}[1mPASS\U{1B}[0m\n"
            else "validator result: \U{1B}[31m\U{1B}[1mFAIL\U{1B}[0m\n"
  {
  }

  lemma PassIsNotFail(line: string)
    ensures !(SaysPass(line) && SaysFail(line))
  {
    var pass, fail := "validator result: PASS\n", "validator result: FAIL\n";
    assert pass[18] == 'P' && fail[18] == 'F';
  }

  lemma Coloured()
    ensures '\U{1B}' !in "validator result: PASS\n" && '\U{1B}' !in "validator result: FAIL\n"
    ensures '\U{1B}' in "validator result: \U{1B}[32m\U{1B}[1mPASS\U{1B}[0m\n"
    ensures '\U{1B}' in "validator result: \U{1B}[31m\U{1B}[1mFAIL\U{1B}[0m\n"
  {
    var pass := "validator result: \U{1B}[32m\U{1B}[1mPASS\U{1B}[0m\n";
    var fail := "validator result: \U{1B}[31m\U{1B}[1mFAIL\U{1B}[0m\n";
    assert pass[18] == '\U{1B}' && fail[18] == '\U{1B}';
  }

  /** Exit code, SARIF flag and footer never disagree, and all say "no required result failed or errored". */
  lemma VerdictsAgree(results: seq<Result>, useColor: bool)
    ensures ComputeExit(SummaryOf(results)) == 0 <==> ExecutionSuccessful(SummaryOf(results))
    ensures SaysPass(VerdictLine(ExecutionSuccessful(SummaryOf(results)), useColor))
       <==> ExecutionSuccessful(SummaryOf(results))
    ensures SaysFail(VerdictLine(ExecutionSuccessful(SummaryOf(results)), useColor))
       <==> !ExecutionSuccessful(SummaryOf(results))
    ensures ExecutionSuccessful(SummaryOf(results))
       <==> forall r :: r in results && r.severity == "required" ==> r.state != Fail && r.state != Error
  {
    hide SaysPass, SaysFail, VerdictLine;
    ExitCodeMeaning(results);
    SaysOne(ExecutionSuccessful(SummaryOf(results)), useColor);
  }

  predicate AllRequiredPassed(results: seq<Result>) {
    forall r :: r in results && IsRequired(r.severity) ==> r.state == Pass
  }

  /** Some required result is a skip, or carries a state outside the four constants. */
  predicate RequiredUndecided(results: seq<Result>) {
    exists r :: r in results && IsRequired(r.severity) && (r.state.Skip? || r.state.Unrecognised?)
  }

  /**
   * exit.go documents code 0 as "every required check passed". The code also returns 0 when a
   * required check was skipped or carries an unknown state: code 0 and the documented reading agree
   * on a report exactly when it has no such result, or a required fail or error beside it.
   */
  lemma ExitOkMeansAllPassed(results: seq<Result>)
    ensures (ComputeExit(SummaryOf(results)) == EXIT_OK <==> AllRequiredPassed(results))
       <==> !RequiredUndecided(results) || RequiredIn(results, Fail) || RequiredIn(results, Error)
  {
    ExitCodeMeaning(results);
  }

  lemma ExitOkWithARequiredSkip() returns (results: seq<Result>)
    ensures ComputeExit(SummaryOf(results)) == EXIT_OK
    ensures exists r :: r in results && IsRequired(r.severity) && r.state != Pass
  {
    var r := Result("c", "c", SEVERITY_REQUIRED, Skip, "", "");
    results := [r];
    CountSingle(r);
    assert r in results;
  }
}
