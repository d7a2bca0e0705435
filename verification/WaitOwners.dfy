/** Whose budget a counted call is given. The gate looks a call's function up
    by name, so functions of one name share the first one's defaults. */
module WaitOwners {
  import opened Text
  import opened WorkflowJobs
  import opened WorkflowBudgets

  /** The seconds a call of this very function may wait. */
  function OwnBudget(fn: WaitFunction, c: WaitCall): Option<nat> {
    var iterations, sleep := Or(c.iterations, fn.iterations), Or(c.sleep, fn.sleep);
    if iterations.Some? && sleep.Some? then Some(iterations.value * sleep.value) else None
  }

  ghost predicate SameDefaults(fns: seq<WaitFunction>) {
    forall i, j :: 0 <= i < j < |fns| && fns[i].name == fns[j].name ==>
      fns[i].iterations == fns[j].iterations && fns[i].sleep == fns[j].sleep
  }

  ghost predicate BudgetsAreOwn(fns: seq<WaitFunction>) {
    forall f, c: WaitCall :: 0 <= f < |fns| && c.fn == fns[f].name ==> Budget(fns, c) == OwnBudget(fns[f], c)
  }

  lemma {:induction false} FindsFirst(fns: seq<WaitFunction>, f: nat)
    requires f < |fns|
    ensures exists i :: 0 <= i <= f && FindFunction(fns, fns[f].name) == Some(fns[i]) && fns[i].name == fns[f].name
  {
    if fns[0].name != fns[f].name {
      FindsFirst(fns[1..], f - 1);
      var i :| 0 <= i <= f - 1 && FindFunction(fns[1..], fns[f].name) == Some(fns[1..][i]) && fns[1..][i].name == fns[f].name;
      assert fns[1..][i] == fns[i + 1];
    }
  }

  function Call(name: string, iterations: Option<nat>, sleep: Option<nat>): WaitCall {
    WaitCall("", name, "", iterations, sleep, 0, None)
  }

  /** Every call is given the budget of the function it invokes exactly when
      functions of one name have the same defaults. */
  lemma BudgetsAreOwnIff(fns: seq<WaitFunction>)
    ensures BudgetsAreOwn(fns) <==> SameDefaults(fns)
  {
    if SameDefaults(fns) {
      forall f, c: WaitCall | 0 <= f < |fns| && c.fn == fns[f].name
        ensures Budget(fns, c) == OwnBudget(fns[f], c)
      {
        FindsFirst(fns, f);
      }
    }
    if BudgetsAreOwn(fns) {
      forall i, j | 0 <= i < j < |fns| && fns[i].name == fns[j].name
        ensures fns[i].iterations == fns[j].iterations && fns[i].sleep == fns[j].sleep
      {
        OwnDefaults(fns, i);
        OwnDefaults(fns, j);
      }
    }
  }

  lemma UnitCalls(fn: WaitFunction)
    ensures OwnBudget(fn, Call(fn.name, Some(1), None)) == fn.sleep
    ensures OwnBudget(fn, Call(fn.name, None, Some(1))) == fn.iterations
  {
  }

  lemma OwnDefaults(fns: seq<WaitFunction>, f: nat)
    requires BudgetsAreOwn(fns) && f < |fns|
    ensures var first := FindFunction(fns, fns[f].name);
      first.Some? && first.value.iterations == fns[f].iterations && first.value.sleep == fns[f].sleep
  {
    FindsFirst(fns, f);
    var first := FindFunction(fns, fns[f].name).value;
    var once, long := Call(fns[f].name, Some(1), None), Call(fns[f].name, None, Some(1));
    assert Budget(fns, once) == OwnBudget(first, once) && Budget(fns, long) == OwnBudget(first, long);
    hide Budget, OwnBudget, FindFunction;
    assert Budget(fns, once) == OwnBudget(fns[f], once);
    assert Budget(fns, long) == OwnBudget(fns[f], long);
    UnitCalls(first);
    UnitCalls(fns[f]);
  }

  // ---------------------------------------------------------------------
  // The waits of a job
  // ---------------------------------------------------------------------

  function Seconds(b: Option<nat>): nat {
    if b.Some? then b.value else 0
  }

  /** The own seconds of the first k functions' calls on a line, for one job. */
  ghost function OwnOnLine(w: Workflow, i: nat, k: nat, job: string): nat
    requires k <= |Fns(w)|
  {
    if k == 0 then 0 else
      OwnOnLine(w, i, k - 1, job)
      + var s := SiteAt(w, i, Fns(w)[k - 1]);
        if s.Counted? && s.call.job == job then Seconds(OwnBudget(Fns(w)[k - 1], s.call)) else 0
  }

  ghost function OwnSeconds(w: Workflow, n: nat, job: string): nat {
    if n == 0 then 0 else OwnSeconds(w, n - 1, job) + OwnOnLine(w, n - 1, |Fns(w)|, job)
  }

  lemma {:induction false} CallsOfConcat(a: seq<WaitCall>, b: seq<WaitCall>, job: string)
    ensures CallsOf(a + b, job) == CallsOf(a, job) + CallsOf(b, job)
    decreases |b|
  {
    if b == [] {
      assert a + b == a;
    } else {
      var n := |b| - 1;
      assert (a + b)[..|a + b| - 1] == a + b[..n];
      CallsOfConcat(a, b[..n], job);
    }
  }

  lemma {:induction false} SumConcat(fns: seq<WaitFunction>, a: seq<WaitCall>, b: seq<WaitCall>)
    ensures SumSeconds(fns, a + b) == SumSeconds(fns, a) + SumSeconds(fns, b)
    decreases |b|
  {
    hide Budget;
    if b == [] {
      assert a + b == a;
    } else {
      var n := |b| - 1;
      assert (a + b)[..|a + b| - 1] == a + b[..n];
      SumConcat(fns, a, b[..n]);
    }
  }

  lemma SumOne(fns: seq<WaitFunction>, c: WaitCall, job: string)
    ensures SumSeconds(fns, CallsOf([c], job)) == if c.job == job then Seconds(Budget(fns, c)) else 0
  {
    hide Budget;
    assert [c][..0] == [];
    assert CallsOf([], job) == [];
    assert SumSeconds(fns, []) == 0;
  }

  lemma {:induction false} LineSecondsOwn(w: Workflow, i: nat, k: nat, job: string)
    requires k <= |Fns(w)| && BudgetsAreOwn(Fns(w))
    ensures SumSeconds(Fns(w), CallsOf(CallsOnLine(w, i, k), job)) == OwnOnLine(w, i, k, job)
  {
    hide Fns, Budget, OwnBudget, JobsOf, CallsOf, SumSeconds, BudgetsAreOwn;
    if k == 0 {
      EmptySum(Fns(w), job);
    } else {
      LineSecondsOwn(w, i, k - 1, job);
      var before, s := CallsOnLine(w, i, k - 1), SiteAt(w, i, Fns(w)[k - 1]);
      if s.Counted? {
        CallsOfConcat(before, [s.call], job);
        SumConcat(Fns(w), CallsOf(before, job), CallsOf([s.call], job));
        SumOne(Fns(w), s.call, job);
        CallIsOwn(w, i, k - 1);
      } else {
        assert before + [] == before;
      }
    }
  }

  lemma EmptySum(fns: seq<WaitFunction>, job: string)
    ensures SumSeconds(fns, CallsOf([], job)) == 0
  {
  }

  lemma CallIsOwn(w: Workflow, i: nat, f: nat)
    requires BudgetsAreOwn(Fns(w)) && f < |Fns(w)| && SiteAt(w, i, Fns(w)[f]).Counted?
    ensures var c := SiteAt(w, i, Fns(w)[f]).call; Budget(Fns(w), c) == OwnBudget(Fns(w)[f], c)
  {
    hide Fns, Budget, OwnBudget, JobsOf;
    assert SiteAt(w, i, Fns(w)[f]).call.fn == Fns(w)[f].name;
  }

  lemma {:induction false} SecondsOwn(w: Workflow, n: nat, job: string)
    requires BudgetsAreOwn(Fns(w))
    ensures SumSeconds(Fns(w), CallsOf(CallsBefore(w, n), job)) == OwnSeconds(w, n, job)
  {
    hide Fns, CallsOnLine, CallsOf, SumSeconds, BudgetsAreOwn, OwnOnLine;
    if n == 0 {
      EmptySum(Fns(w), job);
    } else {
      SecondsOwn(w, n - 1, job);
      var before, line := CallsBefore(w, n - 1), CallsOnLine(w, n - 1, |Fns(w)|);
      LineSecondsOwn(w, n - 1, |Fns(w)|, job);
      CallsOfConcat(before, line, job);
      SumConcat(Fns(w), CallsOf(before, job), CallsOf(line, job));
    }
  }

  /** In a covered file whose functions of one name have the same defaults, a
      job's timeout leaves room for what the functions it invokes really wait. */
  lemma OwnWaitsFit(w: Workflow, k: nat)
    requires Covered(w) && k < |JobsOf(w.lines)| && DistinctNames(JobsOf(w.lines))
    requires CallsOf(CallsBefore(w, |w.lines|), JobsOf(w.lines)[k].name) != []
    requires SameDefaults(Fns(w))
    ensures var job := JobsOf(w.lines)[k];
      job.timeout.Some?
      && job.timeout.value * 60.0 + SLACK >= 1.2 * OwnSeconds(w, |w.lines|, job.name) as real + 300.0
  {
    hide Covered, JobsOf, CallsOf, CallsBefore, SumSeconds, OwnSeconds, BudgetsAreOwn, SameDefaults, Fns, DistinctNames;
    WaitsFit(w, k);
    BudgetsAreOwnIff(Fns(w));
    SecondsOwn(w, |w.lines|, JobsOf(w.lines)[k].name);
  }

  // ---------------------------------------------------------------------
  // A name used twice
  // ---------------------------------------------------------------------

  const PLAIN_LINE := YamlLine(false, false, false, None, None)

  /** A job of ten minutes that defines `wait` twice, for one minute and for a
      hundred, and calls it once. */
  const TWICE_LINES: seq<YamlLine> :=
    [PLAIN_LINE.(jobsKey := true), PLAIN_LINE.(job := Some(("  ", "build"))),
     PLAIN_LINE.(timeout := Some((4, Minutes(10.0)))),
     PLAIN_LINE, PLAIN_LINE, PLAIN_LINE, PLAIN_LINE, PLAIN_LINE, PLAIN_LINE, PLAIN_LINE]

  const SHORT := WaitFunction("wait", 3, 5, Some(1), Some(60))
  const LONG := WaitFunction("wait", 6, 8, Some(100), Some(60))

  function Twice(): Workflow {
    Workflow(TWICE_LINES, [SHORT, LONG],
             i => i == 5 || i == 8, i => i == 4 || i == 7, i => i == 4 || i == 7,
             (i, fn) => if i == 9 then Invocation("run", None, None) else NotACall,
             i => if i == 9 then Some(1.0) else None)
  }

  const TWICE_JOB := Job("build", 1, 10, Some(10.0), None)
  const TWICE_CALL := WaitCall("build", "wait", "run", None, None, 9, Some(1.0))

  lemma TwiceJobs()
    ensures JobsOf(TWICE_LINES) == [TWICE_JOB]
  {
    var t := TWICE_LINES;
    assert ReadAll(t, 1) == State(true, false, [], None, None);
    var r := State(true, true, [Job("build", 1, 10, None, None)], Some("  "), None);
    assert ReadAll(t, 2) == r;
    var s := State(true, true, [Job("build", 1, 10, Some(10.0), None)], Some("  "), None);
    assert ReadAll(t, 3) == s;
    assert ReadAll(t, 6) == ReadAll(t, 5) == ReadAll(t, 4) == s;
    assert ReadAll(t, 9) == ReadAll(t, 8) == ReadAll(t, 7) == s;
    assert ReadAll(t, 10) == s;
  }

  lemma TwiceFns()
    ensures Fns(Twice()) == [SHORT, LONG]
  {
    var w := Twice();
    assert Terminated(w, SHORT) && Terminated(w, LONG);
    assert Keep(w, [LONG]) == [LONG];
  }

  lemma TwiceSites(i: nat)
    requires i < 10
    ensures SiteAt(Twice(), i, SHORT) == SiteAt(Twice(), i, LONG)
         == if i == 9 then Counted(TWICE_CALL) else NoSite
  {
    hide JobsOf;
    TwiceJobs();
  }

  lemma {:induction false} TwiceCalls(n: nat)
    requires n <= 10
    ensures CallsBefore(Twice(), n) == if n == 10 then [TWICE_CALL, TWICE_CALL] else []
  {
    hide JobsOf, SiteAt, Fns;
    TwiceFns();
    if n > 0 {
      TwiceCalls(n - 1);
      TwiceSites(n - 1);
      var w := Twice();
      assert CallsOnLine(w, n - 1, 0) == [];
      assert CallsOnLine(w, n - 1, 1) == if n == 10 then [TWICE_CALL] else [];
    }
  }

  lemma TwicePlaced()
    ensures WaitsPlaced(Twice()) && NoProblem(Twice(), 10, 0)
  {
    hide JobsOf, SiteAt, Fns;
    TwiceFns();
    TwiceJobs();
    var w := Twice();
    forall line: nat, fn | line < 10 && fn in Fns(w)
      ensures !SiteAt(w, line, fn).Problem?
    {
      TwiceSites(line);
    }
    assert Fns(w)[0].start == 3 && Fns(w)[1].start == 6;
    assert InFunction(Fns(w), 4) && InFunction(Fns(w), 7);
  }

  lemma TwiceCovered()
    ensures Covered(Twice())
  {
    hide JobsOf, SiteAt, Fns, WaitsPlaced, NoProblem, CallsBefore;
    TwicePlaced();
    TwiceFns();
    TwiceJobs();
    TwiceCalls(10);
    var fns, calls := [SHORT, LONG], [TWICE_CALL, TWICE_CALL];
    assert calls[..1] == [TWICE_CALL] && [TWICE_CALL][..0] == [];
    forall name
      ensures CallsOf(calls, name) == if name == "build" then calls else []
    {
      assert CallsOf([TWICE_CALL], name) == if name == "build" then [TWICE_CALL] else [];
    }
    assert Budget(fns, TWICE_CALL) == Some(60);
    assert SumSeconds(fns, [TWICE_CALL]) == 60;
    assert SumSeconds(fns, calls) == 120;
    assert TimeoutCovers(10.0, 120);
    assert JobCovered([TWICE_JOB], fns, "build", calls);
  }

  /** The gate accepts this file, although the second function alone waits ten
      times as long as the job may run. */
  lemma NameTwiceHidesWait()
    ensures Covered(Twice()) && LONG in Fns(Twice()) && SiteAt(Twice(), 9, LONG) == Counted(TWICE_CALL)
    ensures OwnBudget(LONG, TWICE_CALL) == Some(6000) && JobsOf(Twice().lines) == [TWICE_JOB]
    ensures TWICE_JOB.timeout == Some(10.0) && 6000.0 == 10.0 * TWICE_JOB.timeout.value * 60.0
  {
    hide JobsOf, SiteAt, Fns, Covered;
    TwiceCovered();
    TwiceFns();
    TwiceJobs();
    TwiceSites(9);
  }
}
