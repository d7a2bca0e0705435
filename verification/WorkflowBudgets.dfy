/** The wait-budget arithmetic of the workflow-timeout gate: call sites are
    attributed to jobs, summed, and compared with each job's timeout. */
module WorkflowBudgets {
  import opened Text
  import opened WorkflowJobs

  const MAX_FINDINGS: nat := 64
  const OVERHEAD_FACTOR: real := 1.2
  const MARGIN_SECONDS: int := 300
  const SLACK: real := 0.000000001

  /** A shell function with a poll loop, and its default budget. The end is
      negative when no closing brace was found. */
  datatype WaitFunction = WaitFunction(name: string, start: nat, end: int, iterations: Option<nat>, sleep: Option<nat>)

  /** What a line says about a wait function, by the gate's call patterns. */
  datatype Look =
    | NotACall
    | Unparseable
    | Invocation(workflow: string, iterations: Option<nat>, sleep: Option<nat>)

  datatype WaitCall = WaitCall(job: string, fn: string, workflow: string, iterations: Option<nat>, sleep: Option<nat>,
                               line: nat, directive: Option<real>)

  datatype Finding =
    | UnterminatedFunction(line: nat)
    | JobsRegionUnparsed
    | UncountedWait(job: string, line: nat)
    | UnattributableWait(line: nat)
    | UnattributableCall(line: nat)
    | UnparseableCall(line: nat)
    | TimeoutUnparsable(job: string)
    | TimeoutMissing(job: string)
    | UnresolvableDefaults(job: string, line: nat)
    | MissingTarget(job: string, line: nat)
    | BudgetBelowTarget(job: string, line: nat)
    | TimeoutBelowWaits(job: string)

  /** The file, as far as the gate needs it: its lines, its wait functions, and
      for every line whether it starts with a closing brace, counts with seq or
      sleeps, what it says about each function and the target it declares. */
  datatype Workflow = Workflow(lines: seq<YamlLine>, parsed: seq<WaitFunction>,
                               braceAt: nat -> bool, seqAt: nat -> bool, sleepAt: nat -> bool,
                               look: (nat, WaitFunction) -> Look, target: nat -> Option<real>)

  predicate Terminated(w: Workflow, fn: WaitFunction) {
    0 <= fn.end < |w.lines| && w.braceAt(fn.end)
  }

  function Keep(w: Workflow, fns: seq<WaitFunction>): (r: seq<WaitFunction>)
    ensures forall fn :: fn in r <==> fn in fns && Terminated(w, fn)
  {
    if fns == [] then [] else (if Terminated(w, fns[0]) then [fns[0]] else []) + Keep(w, fns[1..])
  }

  /** The functions whose extent is known. */
  function Fns(w: Workflow): (r: seq<WaitFunction>)
    ensures forall fn :: fn in r <==> fn in w.parsed && Terminated(w, fn)
  {
    Keep(w, w.parsed)
  }

  /** A full list drops the finding, but an empty list never stays empty. */
  function Push(findings: seq<Finding>, f: Finding): (r: seq<Finding>)
    ensures findings <= r && r != []
    ensures |findings| < 64 ==> r[|findings|..] == [f]
    ensures |findings| >= 64 ==> r == findings
  {
    if |findings| < MAX_FINDINGS then findings + [f] else findings
  }

  // ---------------------------------------------------------------------
  // Where wait constructs stand
  // ---------------------------------------------------------------------

  predicate InFunction(fns: seq<WaitFunction>, line: nat) {
    exists k :: 0 <= k < |fns| && fns[k].start <= line <= fns[k].end
  }

  predicate Sleeps(w: Workflow, job: Job) {
    exists k :: job.start <= k < job.end && w.sleepAt(k)
  }

  /** A seq line lies in a wait function, or in a job that never sleeps. */
  predicate Disposed(w: Workflow, line: nat) {
    w.seqAt(line) ==>
      InFunction(Fns(w), line)
      || (JobAt(JobsOf(w.lines), line).Some? && !Sleeps(w, JobAt(JobsOf(w.lines), line).value))
  }

  ghost predicate AllTerminated(w: Workflow) {
    forall k :: 0 <= k < |w.parsed| ==> Terminated(w, w.parsed[k])
  }

  /** A file with wait constructs has a job. */
  ghost predicate JobsParsed(w: Workflow) {
    JobsOf(w.lines) != [] || forall line :: 0 <= line < |w.lines| ==> !w.seqAt(line)
  }

  ghost predicate AllDisposed(w: Workflow) {
    forall line :: 0 <= line < |w.lines| ==> Disposed(w, line)
  }

  ghost predicate WaitsPlaced(w: Workflow) {
    AllTerminated(w) && JobsParsed(w) && AllDisposed(w)
  }

  /** Nothing is reported exactly when every function ends and every wait
      construct is accounted for. */
  method DisposeWaits(w: Workflow, jobs: seq<Job>, earlier: seq<Finding>) returns (findings: seq<Finding>)
    requires |earlier| <= MAX_FINDINGS && jobs == JobsOf(w.lines)
    ensures earlier <= findings && |findings| <= MAX_FINDINGS
    ensures |earlier| < MAX_FINDINGS ==> (findings == earlier <==> WaitsPlaced(w))
  {
    hide JobsOf, Fns, Terminated, Sleeps, JobAt;
    findings := earlier;
    for k := 0 to |w.parsed|
      invariant earlier <= findings && |findings| <= MAX_FINDINGS
      invariant |earlier| < MAX_FINDINGS ==> (findings == earlier <==> forall i :: 0 <= i < k ==> Terminated(w, w.parsed[i]))
    {
      if !Terminated(w, w.parsed[k]) {
        findings := Push(findings, UnterminatedFunction(w.parsed[k].start));
      }
    }
    ghost var before := findings;
    var seqSeen := exists i :: 0 <= i < |w.lines| && w.seqAt(i);
    if jobs == [] && seqSeen {
      findings := Push(findings, JobsRegionUnparsed);
    }
    ghost var parsed := findings;
    for i := 0 to |w.lines|
      invariant parsed <= findings && |findings| <= MAX_FINDINGS
      invariant |parsed| < MAX_FINDINGS ==> (findings == parsed <==> forall line :: 0 <= line < i ==> Disposed(w, line))
    {
      ghost var soFar := findings;
      if w.seqAt(i) && !InFunction(Fns(w), i) {
        var job := JobAt(jobs, i);
        if job.None? {
          findings := Push(findings, UnattributableWait(i));
        } else if Sleeps(w, job.value) {
          findings := Push(findings, UncountedWait(job.value.name, i));
        }
      }
      assert |soFar| < MAX_FINDINGS ==> (findings == soFar <==> Disposed(w, i));
    }
    assert |earlier| < MAX_FINDINGS ==> (before == earlier <==> AllTerminated(w));
    assert |before| < MAX_FINDINGS ==> (parsed == before <==> JobsParsed(w));
    assert |parsed| < MAX_FINDINGS ==> (findings == parsed <==> AllDisposed(w));
    assert |earlier| <= |before| <= |parsed| <= |findings|;
  }

  // ---------------------------------------------------------------------
  // Call sites
  // ---------------------------------------------------------------------

  datatype Site = NoSite | Problem(finding: Finding) | Counted(call: WaitCall)

  /** A directive on the call line, or else on the line above. */
  function Directive(w: Workflow, line: nat): Option<real> {
    if w.target(line).Some? || line == 0 then w.target(line) else w.target(line - 1)
  }

  function SiteAt(w: Workflow, i: nat, fn: WaitFunction): Site {
    if fn.start <= i <= fn.end || w.look(i, fn).NotACall? then NoSite else
      var jobs := JobsOf(w.lines);
      var job := if JobAt(jobs, i).Some? then JobAt(jobs, i) else JobAt(jobs, fn.start);
      if job.None? then Problem(UnattributableCall(i))
      else
        match w.look(i, fn)
        case Invocation(workflow, iterations, sleep) =>
          Counted(WaitCall(job.value.name, fn.name, workflow, iterations, sleep, i, Directive(w, i)))
        case _ => Problem(UnparseableCall(i))
  }

  function CallsOnLine(w: Workflow, i: nat, k: nat): seq<WaitCall>
    requires k <= |Fns(w)|
  {
    if k == 0 then [] else
      CallsOnLine(w, i, k - 1) + var s := SiteAt(w, i, Fns(w)[k - 1]); if s.Counted? then [s.call] else []
  }

  function CallsBefore(w: Workflow, i: nat): seq<WaitCall> {
    if i == 0 then [] else CallsBefore(w, i - 1) + CallsOnLine(w, i - 1, |Fns(w)|)
  }

  ghost predicate NoProblem(w: Workflow, i: nat, k: nat) {
    && (forall line: nat, fn :: line < i && fn in Fns(w) ==> !SiteAt(w, line, fn).Problem?)
    && (forall f :: 0 <= f < k <= |Fns(w)| ==> !SiteAt(w, i, Fns(w)[f]).Problem?)
  }

  /** Every invocation outside its own function is counted or reported. */
  method CollectCalls(w: Workflow, earlier: seq<Finding>) returns (calls: seq<WaitCall>, findings: seq<Finding>)
    requires |earlier| <= MAX_FINDINGS
    ensures calls == CallsBefore(w, |w.lines|)
    ensures earlier <= findings && |findings| <= MAX_FINDINGS
    ensures |earlier| < MAX_FINDINGS ==> (findings == earlier <==> NoProblem(w, |w.lines|, 0))
  {
    hide SiteAt;
    calls, findings := [], earlier;
    for i := 0 to |w.lines|
      invariant calls == CallsBefore(w, i)
      invariant earlier <= findings && |findings| <= MAX_FINDINGS
      invariant |earlier| < MAX_FINDINGS ==> (findings == earlier <==> NoProblem(w, i, 0))
    {
      for k := 0 to |Fns(w)|
        invariant calls == CallsBefore(w, i) + CallsOnLine(w, i, k)
        invariant earlier <= findings && |findings| <= MAX_FINDINGS
        invariant |earlier| < MAX_FINDINGS ==> (findings == earlier <==> NoProblem(w, i, k))
      {
        var site := SiteAt(w, i, Fns(w)[k]);
        if site.Problem? {
          findings := Push(findings, site.finding);
        } else if site.Counted? {
          calls := calls + [site.call];
        }
      }
    }
  }

  // ---------------------------------------------------------------------
  // Budgets of one job
  // ---------------------------------------------------------------------

  function FindJob(jobs: seq<Job>, name: string): (r: Option<Job>)
    ensures r.Some? ==> r.value in jobs && r.value.name == name
  {
    if jobs == [] then None else if jobs[0].name == name then Some(jobs[0]) else FindJob(jobs[1..], name)
  }

  function FindFunction(fns: seq<WaitFunction>, name: string): (r: Option<WaitFunction>)
    ensures r.Some? <==> exists k :: 0 <= k < |fns| && fns[k].name == name
  {
    if fns == [] then None else if fns[0].name == name then Some(fns[0]) else FindFunction(fns[1..], name)
  }

  function Or(a: Option<nat>, b: Option<nat>): Option<nat> {
    if a.Some? then a else b
  }

  /** The seconds a call may wait: its own numbers or the function's defaults. */
  function Budget(fns: seq<WaitFunction>, c: WaitCall): Option<nat> {
    var fn := FindFunction(fns, c.fn);
    if fn.None? then None else
      var iterations, sleep := Or(c.iterations, fn.value.iterations), Or(c.sleep, fn.value.sleep);
      if iterations.Some? && sleep.Some? then Some(iterations.value * sleep.value) else None
  }

  function SumSeconds(fns: seq<WaitFunction>, calls: seq<WaitCall>): nat {
    if calls == [] then 0 else
      SumSeconds(fns, calls[..|calls| - 1])
      + var b := Budget(fns, calls[|calls| - 1]); if b.Some? then b.value else 0
  }

  function CeilMul(n: int, x: real): int {
    var product := n as real * x;
    -((-product).Floor)
  }

  predicate CallCovered(fns: seq<WaitFunction>, c: WaitCall) {
    FindFunction(fns, c.fn).None? ||
    (Budget(fns, c).Some? && c.directive.Some? && Budget(fns, c).value as real / 60.0 + SLACK >= c.directive.value)
  }

  predicate TimeoutCovers(minutes: real, seconds: int) {
    minutes * 60.0 + SLACK >= (CeilMul(seconds, OVERHEAD_FACTOR) + MARGIN_SECONDS) as real
  }

  ghost predicate JobCovered(jobs: seq<Job>, fns: seq<WaitFunction>, name: string, calls: seq<WaitCall>) {
    var job := FindJob(jobs, name);
    job.Some? ==>
      && job.value.unparsable.None? && job.value.timeout.Some?
      && (forall i :: 0 <= i < |calls| ==> CallCovered(fns, calls[i]))
      && TimeoutCovers(job.value.timeout.value, SumSeconds(fns, calls))
  }

  method CheckJob(jobs: seq<Job>, fns: seq<WaitFunction>, name: string, calls: seq<WaitCall>, earlier: seq<Finding>)
    returns (findings: seq<Finding>)
    requires |earlier| <= MAX_FINDINGS
    ensures earlier <= findings && |findings| <= MAX_FINDINGS
    ensures |earlier| < MAX_FINDINGS ==> (findings == earlier <==> JobCovered(jobs, fns, name, calls))
  {
    findings := earlier;
    var found := FindJob(jobs, name);
    if found.None? {
      return;
    }
    var job := found.value;
    if job.unparsable.Some? {
      return Push(findings, TimeoutUnparsable(name));
    }
    if job.timeout.None? {
      return Push(findings, TimeoutMissing(name));
    }
    var sumSeconds: nat, sumResolved := 0, true;
    for i := 0 to |calls|
      invariant earlier <= findings && |findings| <= MAX_FINDINGS
      invariant |earlier| < MAX_FINDINGS ==> (findings == earlier <==> forall k :: 0 <= k < i ==> CallCovered(fns, calls[k]))
      invariant sumSeconds == SumSeconds(fns, calls[..i])
      invariant |earlier| < MAX_FINDINGS && !sumResolved ==> findings != earlier
    {
      hide TimeoutCovers, FindFunction;
      var call := calls[i];
      assert calls[..i + 1][..i] == calls[..i];
      if FindFunction(fns, call.fn).None? {
        continue;
      }
      var budget := Budget(fns, call);
      if budget.None? {
        sumResolved := false;
        findings := Push(findings, UnresolvableDefaults(name, call.line));
        continue;
      }
      sumSeconds := sumSeconds + budget.value;
      if call.directive.None? {
        findings := Push(findings, MissingTarget(name, call.line));
      } else if budget.value as real / 60.0 + SLACK < call.directive.value {
        findings := Push(findings, BudgetBelowTarget(name, call.line));
      }
    }
    assert calls[..|calls|] == calls;
    if sumResolved && !TimeoutCovers(job.timeout.value, sumSeconds) {
      findings := Push(findings, TimeoutBelowWaits(name));
    }
  }

  // ---------------------------------------------------------------------
  // The whole file
  // ---------------------------------------------------------------------

  function CallsOf(calls: seq<WaitCall>, job: string): seq<WaitCall> {
    if calls == [] then [] else
      CallsOf(calls[..|calls| - 1], job) + if calls[|calls| - 1].job == job then [calls[|calls| - 1]] else []
  }

  method GroupByJob(calls: seq<WaitCall>) returns (byJob: map<string, seq<WaitCall>>)
    ensures forall name :: name in byJob <==> CallsOf(calls, name) != []
    ensures forall name :: name in byJob ==> byJob[name] == CallsOf(calls, name)
  {
    byJob := map[];
    for i := 0 to |calls|
      invariant forall name :: name in byJob <==> CallsOf(calls[..i], name) != []
      invariant forall name :: name in byJob ==> byJob[name] == CallsOf(calls[..i], name)
    {
      assert calls[..i + 1][..i] == calls[..i];
      var name := calls[i].job;
      var list := if name in byJob then byJob[name] else [];
      byJob := byJob[name := list + [calls[i]]];
    }
    assert calls[..|calls|] == calls;
  }

  /** Everything the gate asks of a file's waits. */
  ghost predicate Covered(w: Workflow) {
    var jobs, calls := JobsOf(w.lines), CallsBefore(w, |w.lines|);
    && WaitsPlaced(w) && NoProblem(w, |w.lines|, 0)
    && AllJobsCovered(jobs, Fns(w), calls) && IdleTimeoutsPlain(jobs, calls)
  }

  ghost predicate AllJobsCovered(jobs: seq<Job>, fns: seq<WaitFunction>, calls: seq<WaitCall>) {
    forall name :: CallsOf(calls, name) != [] ==> JobCovered(jobs, fns, name, CallsOf(calls, name))
  }

  ghost predicate IdleTimeoutsPlain(jobs: seq<Job>, calls: seq<WaitCall>) {
    forall j :: 0 <= j < |jobs| ==> jobs[j].unparsable.None? || CallsOf(calls, jobs[j].name) != []
  }

  method CheckJobs(jobs: seq<Job>, fns: seq<WaitFunction>, calls: seq<WaitCall>, earlier: seq<Finding>)
    returns (findings: seq<Finding>)
    requires |earlier| <= MAX_FINDINGS
    ensures earlier <= findings && |findings| <= MAX_FINDINGS
    ensures |earlier| < MAX_FINDINGS ==>
      (findings == earlier <==> AllJobsCovered(jobs, fns, calls) && IdleTimeoutsPlain(jobs, calls))
  {
    hide JobCovered, CallsOf;
    var byJob := GroupByJob(calls);
    findings := earlier;
    var rest := byJob.Keys;
    while rest != {}
      invariant rest <= byJob.Keys
      invariant earlier <= findings && |findings| <= MAX_FINDINGS
      invariant |earlier| < MAX_FINDINGS ==> (findings == earlier <==>
        forall name :: name in byJob && name !in rest ==> JobCovered(jobs, fns, name, byJob[name]))
      decreases rest
    {
      var name :| name in rest;
      rest := rest - {name};
      findings := CheckJob(jobs, fns, name, byJob[name], findings);
    }
    ghost var before := findings;
    assert |earlier| < MAX_FINDINGS ==> (before == earlier <==> AllJobsCovered(jobs, fns, calls)) by {
      assert forall name :: name in byJob ==> byJob[name] == CallsOf(calls, name);
    }
    for j := 0 to |jobs|
      invariant before <= findings && |findings| <= MAX_FINDINGS
      invariant |before| < MAX_FINDINGS ==> (findings == before <==>
        forall k :: 0 <= k < j ==> jobs[k].unparsable.None? || jobs[k].name in byJob)
    {
      if jobs[j].unparsable.Some? && jobs[j].name !in byJob {
        findings := Push(findings, TimeoutUnparsable(jobs[j].name));
      }
    }
    assert before == earlier ==> (findings == before <==> IdleTimeoutsPlain(jobs, calls)) || |earlier| == MAX_FINDINGS;
    if before != earlier {
      assert |earlier| < |before| <= |findings|;
    }
  }

  /** An empty result means that every wait is placed and covered, and only
      then: the cap on findings never hides the first one. `earlier` holds the
      findings of the files scanned before. */
  method ScanWorkflow(w: Workflow, earlier: seq<Finding>) returns (findings: seq<Finding>)
    requires |earlier| <= 64
    ensures earlier <= findings && |findings| <= 64
    ensures findings == [] <==> earlier == [] && Covered(w)
  {
    hide AllJobsCovered, IdleTimeoutsPlain, CallsBefore, NoProblem, WaitsPlaced, Fns;
    var jobs := ParseWorkflowJobs(w.lines);
    var placed := DisposeWaits(w, jobs, earlier);
    var calls, found := CollectCalls(w, placed);
    findings := CheckJobs(jobs, Fns(w), calls, found);
    assert |earlier| <= |placed| <= |found| <= |findings|;
  }

  // ---------------------------------------------------------------------
  // What coverage means
  // ---------------------------------------------------------------------

  ghost predicate DistinctNames(jobs: seq<Job>) {
    forall i, j :: 0 <= i < j < |jobs| ==> jobs[i].name != jobs[j].name
  }

  lemma {:induction false} FindsItself(jobs: seq<Job>, k: nat)
    requires k < |jobs| && DistinctNames(jobs)
    ensures FindJob(jobs, jobs[k].name) == Some(jobs[k])
  {
    if k > 0 {
      assert jobs[0].name != jobs[k].name;
      FindsItself(jobs[1..], k - 1);
    }
  }

  ghost function SumTargets(calls: seq<WaitCall>): real {
    if calls == [] then 0.0 else
      SumTargets(calls[..|calls| - 1])
      + if calls[|calls| - 1].directive.Some? then calls[|calls| - 1].directive.value else 0.0
  }

  ghost predicate Known(fns: seq<WaitFunction>, calls: seq<WaitCall>) {
    forall i :: 0 <= i < |calls| ==> FindFunction(fns, calls[i].fn).Some?
  }

  /** The budgets add up to the targets, up to one slack per call. */
  lemma {:induction false} BudgetsReachTargets(fns: seq<WaitFunction>, calls: seq<WaitCall>)
    requires Known(fns, calls) && forall i :: 0 <= i < |calls| ==> CallCovered(fns, calls[i])
    ensures SumSeconds(fns, calls) as real / 60.0 + |calls| as real * SLACK >= SumTargets(calls)
    decreases |calls|
  {
    hide FindFunction, Budget;
    if calls != [] {
      var last := calls[|calls| - 1];
      BudgetsReachTargets(fns, calls[..|calls| - 1]);
      assert CallCovered(fns, last) && FindFunction(fns, last.fn).Some?;
      var b := Budget(fns, last).value;
      assert SumSeconds(fns, calls) == SumSeconds(fns, calls[..|calls| - 1]) + b;
    }
  }

  lemma CeilAtLeast(n: int, x: real)
    ensures CeilMul(n, x) as real >= n as real * x
  {
  }

  lemma {:induction false} LineCallCounted(w: Workflow, i: nat, k: nat, f: nat)
    requires f < k <= |Fns(w)| && SiteAt(w, i, Fns(w)[f]).Counted?
    ensures SiteAt(w, i, Fns(w)[f]).call in CallsOnLine(w, i, k)
  {
    hide SiteAt, Fns;
    if f < k - 1 {
      LineCallCounted(w, i, k - 1, f);
    }
  }

  lemma {:induction false} CallCounted(w: Workflow, n: nat, i: nat, f: nat)
    requires i < n && f < |Fns(w)| && SiteAt(w, i, Fns(w)[f]).Counted?
    ensures SiteAt(w, i, Fns(w)[f]).call in CallsBefore(w, n)
  {
    hide SiteAt, Fns, CallsOnLine;
    if i == n - 1 {
      LineCallCounted(w, i, |Fns(w)|, f);
    } else {
      CallCounted(w, n - 1, i, f);
    }
  }

  /** In a covered file no poll loop escapes: every seq line lies in a job that
      never sleeps, or in a wait function all of whose invocations from
      elsewhere are among the counted calls. */
  lemma PollLoopsAccounted(w: Workflow, line: nat)
    requires Covered(w) && line < |w.lines| && w.seqAt(line)
    ensures
      || (exists f :: 0 <= f < |Fns(w)| && Fns(w)[f].start <= line <= Fns(w)[f].end && Accounted(w, f))
      || (JobAt(JobsOf(w.lines), line).Some? && !Sleeps(w, JobAt(JobsOf(w.lines), line).value))
  {
    hide JobsOf, JobAt, Sleeps, Fns, SiteAt, CallsBefore, AllJobsCovered, IdleTimeoutsPlain;
    assert Disposed(w, line);
    if f :| 0 <= f < |Fns(w)| && Fns(w)[f].start <= line <= Fns(w)[f].end {
      AllAccounted(w, f);
    }
  }

  predicate Invokes(w: Workflow, i: nat, fn: WaitFunction) {
    !(fn.start <= i <= fn.end) && !w.look(i, fn).NotACall?
  }

  /** Every line that invokes the function gives a counted call. */
  ghost predicate Accounted(w: Workflow, f: nat)
    requires f < |Fns(w)|
  {
    forall i :: 0 <= i < |w.lines| && Invokes(w, i, Fns(w)[f]) ==>
      SiteAt(w, i, Fns(w)[f]).Counted? && SiteAt(w, i, Fns(w)[f]).call in CallsBefore(w, |w.lines|)
  }

  lemma AllAccounted(w: Workflow, f: nat)
    requires NoProblem(w, |w.lines|, 0) && f < |Fns(w)|
    ensures Accounted(w, f)
  {
    hide JobsOf, JobAt, Fns, CallsBefore;
    forall i | 0 <= i < |w.lines| && Invokes(w, i, Fns(w)[f])
      ensures SiteAt(w, i, Fns(w)[f]).Counted? && SiteAt(w, i, Fns(w)[f]).call in CallsBefore(w, |w.lines|)
    {
      assert Fns(w)[f] in Fns(w);
      CallCounted(w, |w.lines|, i, f);
    }
  }

  lemma {:induction false} LineCallsKnown(w: Workflow, i: nat, k: nat)
    requires k <= |Fns(w)|
    ensures Known(Fns(w), CallsOnLine(w, i, k))
  {
    if k > 0 {
      LineCallsKnown(w, i, k - 1);
      assert Fns(w)[k - 1] in Fns(w);
    }
  }

  lemma {:induction false} CallsKnown(w: Workflow, i: nat)
    ensures Known(Fns(w), CallsBefore(w, i))
  {
    hide FindFunction, CallsOnLine;
    if i > 0 {
      CallsKnown(w, i - 1);
      LineCallsKnown(w, i - 1, |Fns(w)|);
    }
  }

  lemma {:induction false} CallsOfKnown(fns: seq<WaitFunction>, calls: seq<WaitCall>, job: string)
    requires Known(fns, calls)
    ensures Known(fns, CallsOf(calls, job))
  {
    hide FindFunction;
    if calls != [] {
      CallsOfKnown(fns, calls[..|calls| - 1], job);
    }
  }

  /** In a covered file with distinct job names, the timeout of every job that
      waits leaves room for its budgets and for its declared targets, with
      twenty per cent overhead and five minutes to spare. */
  lemma WaitsFit(w: Workflow, k: nat)
    requires Covered(w) && k < |JobsOf(w.lines)| && DistinctNames(JobsOf(w.lines))
    requires CallsOf(CallsBefore(w, |w.lines|), JobsOf(w.lines)[k].name) != []
    ensures
      var job := JobsOf(w.lines)[k];
      var calls := CallsOf(CallsBefore(w, |w.lines|), job.name);
      && job.timeout.Some?
      && job.timeout.value * 60.0 + SLACK >= 1.2 * SumSeconds(Fns(w), calls) as real + 300.0
      && job.timeout.value + SLACK + 1.2 * (|calls| as real * SLACK) >= 1.2 * SumTargets(calls) + 5.0
  {
    hide FindFunction, CallsOf, CallsBefore, JobsOf, NoProblem, CallCovered;
    var jobs := JobsOf(w.lines);
    var all := CallsBefore(w, |w.lines|);
    var calls := CallsOf(all, jobs[k].name);
    FindsItself(jobs, k);
    assert JobCovered(jobs, Fns(w), jobs[k].name, calls);
    var sum := SumSeconds(Fns(w), calls);
    CeilAtLeast(sum, OVERHEAD_FACTOR);
    CallsKnown(w, |w.lines|);
    CallsOfKnown(Fns(w), all, jobs[k].name);
    BudgetsReachTargets(Fns(w), calls);
  }
}
