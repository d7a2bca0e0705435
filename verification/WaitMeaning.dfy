/** What the workflow-timeout gate asks of a file, said about lines, blocks and
    calls without the functions that the gate computes with. */
module WaitMeaning {
  import opened Text
  import opened WorkflowJobs
  import opened WorkflowBudgets

  // ---------------------------------------------------------------------
  // Placement
  // ---------------------------------------------------------------------

  /** The function ends at a line of the file that starts with a brace. */
  ghost predicate Ended(w: Workflow, fn: WaitFunction) {
    exists line: nat :: line < |w.lines| && fn.end == line && w.braceAt(line)
  }

  ghost predicate Encloses(fn: WaitFunction, line: nat) {
    !(line < fn.start) && !(fn.end < line)
  }

  ghost predicate InBlock(w: Workflow, job: Job, line: nat) {
    job in JobsOf(w.lines) && job.start <= line && line < job.end
  }

  ghost predicate Sleepless(w: Workflow, job: Job) {
    forall k: nat :: w.sleepAt(k) ==> k < job.start || job.end <= k
  }

  /** Every function ends, and every line that counts with seq lies in one of
      them or in a block that never sleeps, and some block exists. */
  ghost predicate Placed(w: Workflow) {
    && (forall fn :: fn in w.parsed ==> Ended(w, fn))
    && (forall line: nat :: line < |w.lines| && w.seqAt(line) ==> JobsOf(w.lines) != [] && PlacedAt(w, line))
  }

  ghost predicate PlacedAt(w: Workflow, line: nat) {
    || (exists fn :: fn in w.parsed && Ended(w, fn) && Encloses(fn, line))
    || (exists job :: InBlock(w, job, line) && Sleepless(w, job))
  }

  lemma FnsMeaning(w: Workflow, fn: WaitFunction)
    ensures fn in Fns(w) <==> fn in w.parsed && Ended(w, fn)
  {
    if fn in w.parsed && Terminated(w, fn) {
      var line: nat := fn.end;
      assert w.braceAt(line);
    }
  }

  lemma JobAtMeaning(w: Workflow, line: nat, job: Job)
    ensures JobAt(JobsOf(w.lines), line) == Some(job) <==> InBlock(w, job, line)
  {
    hide JobsOf, JobAt;
    if InBlock(w, job, line) {
      JobAtUnique(w.lines, line, job);
    }
  }

  lemma DisposedMeaning(w: Workflow, line: nat)
    ensures Disposed(w, line) <==> (w.seqAt(line) ==> PlacedAt(w, line))
  {
    hide JobsOf, JobAt, Fns, Ended;
    forall fn
      ensures fn in Fns(w) <==> fn in w.parsed && Ended(w, fn)
    {
      FnsMeaning(w, fn);
    }
    if k :| 0 <= k < |Fns(w)| && Fns(w)[k].start <= line <= Fns(w)[k].end {
      assert Fns(w)[k] in Fns(w) && Encloses(Fns(w)[k], line);
    }
    if fn :| fn in w.parsed && Ended(w, fn) && Encloses(fn, line) {
      var k :| 0 <= k < |Fns(w)| && Fns(w)[k] == fn;
    }
    forall job
      ensures JobAt(JobsOf(w.lines), line) == Some(job) <==> InBlock(w, job, line)
    {
      JobAtMeaning(w, line, job);
    }
  }

  lemma PlacedMeaning(w: Workflow)
    ensures WaitsPlaced(w) <==> Placed(w)
  {
    hide JobsOf, Disposed, PlacedAt, Ended, Terminated;
    forall line: nat | line < |w.lines|
      ensures Disposed(w, line) <==> (w.seqAt(line) ==> PlacedAt(w, line))
    {
      DisposedMeaning(w, line);
    }
    forall fn | fn in w.parsed
      ensures Terminated(w, fn) <==> Ended(w, fn)
    {
      FnsMeaning(w, fn);
    }
    if WaitsPlaced(w) {
      forall line: nat | line < |w.lines| && w.seqAt(line)
        ensures JobsOf(w.lines) != [] && PlacedAt(w, line)
      {
        assert Disposed(w, line);
      }
    }
  }

  // ---------------------------------------------------------------------
  // Calls
  // ---------------------------------------------------------------------

  /** Line i invokes the function from outside. */
  ghost predicate CallAt(w: Workflow, i: nat, fn: WaitFunction) {
    fn in w.parsed && Ended(w, fn) && !Encloses(fn, i) && w.look(i, fn) != NotACall
  }

  /** The call belongs to the block it stands in or, outside every block, to
      the one that defines the function. */
  ghost predicate Attributed(w: Workflow, i: nat, fn: WaitFunction, job: Job) {
    InBlock(w, job, i) || (InBlock(w, job, fn.start) && forall other :: !InBlock(w, other, i))
  }

  /** The target declared on line i or, failing that, on the line above. */
  ghost predicate TargetIs(w: Workflow, i: nat, target: Option<real>) {
    if w.target(i) != None then target == w.target(i)
    else target == if i > 0 then w.target(i - 1) else None
  }

  ghost predicate CallIs(w: Workflow, i: nat, fn: WaitFunction, c: WaitCall) {
    && CallAt(w, i, fn) && w.look(i, fn) == Invocation(c.workflow, c.iterations, c.sleep)
    && c.fn == fn.name && c.line == i && TargetIs(w, i, c.directive)
    && exists job :: Attributed(w, i, fn, job) && c.job == job.name
  }

  lemma AttributedMeaning(w: Workflow, i: nat, fn: WaitFunction, job: Job)
    ensures var jobs := JobsOf(w.lines);
      (if JobAt(jobs, i).Some? then JobAt(jobs, i) else JobAt(jobs, fn.start)) == Some(job) <==> Attributed(w, i, fn, job)
  {
    hide JobsOf, JobAt, InBlock;
    forall b
      ensures JobAt(JobsOf(w.lines), i) == Some(b) <==> InBlock(w, b, i)
      ensures JobAt(JobsOf(w.lines), fn.start) == Some(b) <==> InBlock(w, b, fn.start)
    {
      JobAtMeaning(w, i, b);
      JobAtMeaning(w, fn.start, b);
    }
    if JobAt(JobsOf(w.lines), i).Some? {
      assert InBlock(w, JobAt(JobsOf(w.lines), i).value, i);
    }
  }

  lemma SiteMeaning(w: Workflow, i: nat, fn: WaitFunction, c: WaitCall)
    requires fn in Fns(w)
    ensures SiteAt(w, i, fn) == NoSite <==> !CallAt(w, i, fn)
    ensures SiteAt(w, i, fn) == Counted(c) <==> CallIs(w, i, fn, c)
  {
    hide JobsOf, JobAt, InBlock, Ended, Attributed;
    FnsMeaning(w, fn);
    forall job
      ensures var jobs := JobsOf(w.lines);
        (if JobAt(jobs, i).Some? then JobAt(jobs, i) else JobAt(jobs, fn.start)) == Some(job)
        <==> Attributed(w, i, fn, job)
    {
      AttributedMeaning(w, i, fn, job);
    }
    if SiteAt(w, i, fn).Counted? {
      var jobs := JobsOf(w.lines);
      var job := if JobAt(jobs, i).Some? then JobAt(jobs, i) else JobAt(jobs, fn.start);
      assert Attributed(w, i, fn, job.value);
    }
  }

  lemma CallIsOne(w: Workflow, i: nat, fn: WaitFunction, c: WaitCall, d: WaitCall)
    requires CallIs(w, i, fn, c) && CallIs(w, i, fn, d)
    ensures c == d
  {
    hide CallIs, SiteAt, Fns, Ended;
    InFns(w, i, fn, c);
    SiteMeaning(w, i, fn, c);
    SiteMeaning(w, i, fn, d);
  }

  lemma InFns(w: Workflow, i: nat, fn: WaitFunction, c: WaitCall)
    requires CallIs(w, i, fn, c)
    ensures fn in Fns(w)
  {
    hide Ended, InBlock;
    FnsMeaning(w, fn);
  }

  // ---------------------------------------------------------------------
  // Budgets
  // ---------------------------------------------------------------------

  /** The k-th function is the first ended one of that name. */
  ghost predicate FirstAt(w: Workflow, fns: seq<WaitFunction>, name: string, k: nat) {
    && k < |fns| && fns[k].name == name && Ended(w, fns[k])
    && forall j :: 0 <= j < k ==> !(fns[j].name == name && Ended(w, fns[j]))
  }

  ghost predicate FirstIn(w: Workflow, fns: seq<WaitFunction>, name: string, g: WaitFunction) {
    exists k: nat :: FirstAt(w, fns, name, k) && fns[k] == g
  }

  /** The call's own number or, failing that, the default. */
  ghost predicate Chosen(own: Option<nat>, default: Option<nat>, n: nat) {
    own == Some(n) || (own == None && default == Some(n))
  }

  /** The seconds that the call may wait. */
  ghost predicate BudgetIs(w: Workflow, c: WaitCall, n: nat) {
    exists g, a: nat, b: nat ::
      FirstIn(w, w.parsed, c.fn, g) && Chosen(c.iterations, g.iterations, a) && Chosen(c.sleep, g.sleep, b) && n == a * b
  }

  lemma {:induction false} FindKept(w: Workflow, fns: seq<WaitFunction>, name: string, g: WaitFunction)
    ensures FindFunction(Keep(w, fns), name) == Some(g) <==> FirstIn(w, fns, name, g)
    decreases |fns|
  {
    hide Ended, Terminated;
    if fns != [] {
      var first, rest := fns[0], fns[1..];
      FindKept(w, rest, name, g);
      EndedMeaning(w, first);
      FirstInCons(w, fns, name, g);
      if Terminated(w, first) {
        assert Keep(w, fns) == [first] + Keep(w, rest);
        assert ([first] + Keep(w, rest))[1..] == Keep(w, rest);
      } else {
        assert Keep(w, fns) == [] + Keep(w, rest) == Keep(w, rest);
      }
    }
  }

  lemma EndedMeaning(w: Workflow, fn: WaitFunction)
    ensures Terminated(w, fn) <==> Ended(w, fn)
  {
    if Terminated(w, fn) {
      var line: nat := fn.end;
      assert w.braceAt(line);
    }
  }

  lemma FirstInCons(w: Workflow, fns: seq<WaitFunction>, name: string, g: WaitFunction)
    requires fns != []
    ensures FirstIn(w, fns, name, g) <==>
      if fns[0].name == name && Ended(w, fns[0]) then g == fns[0] else FirstIn(w, fns[1..], name, g)
  {
    hide Ended;
    var rest := fns[1..];
    assert forall j :: 0 <= j < |rest| ==> rest[j] == fns[j + 1];
    if k: nat :| FirstAt(w, fns, name, k) && fns[k] == g {
      if k > 0 {
        assert FirstAt(w, rest, name, k - 1);
      }
    }
    if fns[0].name == name && Ended(w, fns[0]) {
      assert FirstAt(w, fns, name, 0);
    } else if k: nat :| FirstAt(w, rest, name, k) && rest[k] == g {
      assert forall j :: 0 < j < |fns| ==> fns[j] == rest[j - 1];
      assert FirstAt(w, fns, name, k + 1);
    }
  }

  lemma BudgetMeaning(w: Workflow, c: WaitCall, n: nat)
    ensures Budget(Fns(w), c) == Some(n) <==> BudgetIs(w, c, n)
  {
    hide FindFunction, Keep, FirstIn;
    forall g
      ensures FindFunction(Fns(w), c.fn) == Some(g) <==> FirstIn(w, w.parsed, c.fn, g)
    {
      FindKept(w, w.parsed, c.fn, g);
    }
    if g, a: nat, b: nat :|
      FirstIn(w, w.parsed, c.fn, g) && Chosen(c.iterations, g.iterations, a) && Chosen(c.sleep, g.sleep, b) && n == a * b {
      assert Or(c.iterations, g.iterations) == Some(a) && Or(c.sleep, g.sleep) == Some(b);
    }
    if Budget(Fns(w), c) == Some(n) {
      var g := FindFunction(Fns(w), c.fn).value;
      var a, b := Or(c.iterations, g.iterations).value, Or(c.sleep, g.sleep).value;
      assert Chosen(c.iterations, g.iterations, a) && Chosen(c.sleep, g.sleep, b);
    }
  }

  // ---------------------------------------------------------------------
  // Sums
  // ---------------------------------------------------------------------

  ghost function SecondsOf(w: Workflow, c: WaitCall): (n: nat)
    ensures (exists m: nat :: BudgetIs(w, c, m)) ==> BudgetIs(w, c, n)
  {
    if m: nat :| BudgetIs(w, c, m) then m else 0
  }

  /** What line i makes the job wait by calling fn. */
  ghost function CallSeconds(w: Workflow, i: nat, fn: WaitFunction, job: string): nat {
    if c :| CallIs(w, i, fn, c) && c.job == job then SecondsOf(w, c) else 0
  }

  ghost function LineSeconds(w: Workflow, i: nat, fns: seq<WaitFunction>, job: string): nat {
    if fns == [] then 0 else CallSeconds(w, i, fns[0], job) + LineSeconds(w, i, fns[1..], job)
  }

  /** What the first n lines make the job wait. */
  ghost function TotalSeconds(w: Workflow, n: nat, job: string): nat {
    if n == 0 then 0 else TotalSeconds(w, n - 1, job) + LineSeconds(w, n - 1, w.parsed, job)
  }

  lemma SecondsMeaning(w: Workflow, c: WaitCall)
    ensures SecondsOf(w, c) == if Budget(Fns(w), c).Some? then Budget(Fns(w), c).value else 0
  {
    hide BudgetIs, Budget;
    forall m: nat
      ensures Budget(Fns(w), c) == Some(m) <==> BudgetIs(w, c, m)
    {
      BudgetMeaning(w, c, m);
    }
    if Budget(Fns(w), c).Some? {
      assert BudgetIs(w, c, Budget(Fns(w), c).value);
    } else {
      assert forall m: nat :: !BudgetIs(w, c, m);
    }
  }

  lemma CallSecondsMeaning(w: Workflow, i: nat, fn: WaitFunction, job: string)
    requires fn in Fns(w)
    ensures var s := SiteAt(w, i, fn);
      CallSeconds(w, i, fn, job) == if s.Counted? && s.call.job == job then SecondsOf(w, s.call) else 0
  {
    hide SiteAt, CallIs, SecondsOf, Fns;
    forall c
      ensures SiteAt(w, i, fn) == Counted(c) <==> CallIs(w, i, fn, c)
    {
      SiteMeaning(w, i, fn, c);
    }
  }

  lemma NotEndedWaitsNot(w: Workflow, i: nat, fn: WaitFunction, job: string)
    requires !Terminated(w, fn)
    ensures CallSeconds(w, i, fn, job) == 0
  {
    hide Ended, InBlock;
    EndedMeaning(w, fn);
  }

  lemma {:induction false} LineKept(w: Workflow, i: nat, fns: seq<WaitFunction>, job: string)
    ensures LineSeconds(w, i, Keep(w, fns), job) == LineSeconds(w, i, fns, job)
    decreases |fns|
  {
    hide Terminated, CallSeconds;
    if fns != [] {
      var rest := Keep(w, fns[1..]);
      LineKept(w, i, fns[1..], job);
      if Terminated(w, fns[0]) {
        assert Keep(w, fns) == [fns[0]] + rest && ([fns[0]] + rest)[1..] == rest;
      } else {
        assert Keep(w, fns) == [] + rest == rest;
        NotEndedWaitsNot(w, i, fns[0], job);
      }
    }
  }

  lemma {:induction false} LineSecondsMore(w: Workflow, i: nat, fns: seq<WaitFunction>, fn: WaitFunction, job: string)
    ensures LineSeconds(w, i, fns + [fn], job) == LineSeconds(w, i, fns, job) + CallSeconds(w, i, fn, job)
    decreases |fns|
  {
    hide CallSeconds;
    var all := fns + [fn];
    if fns == [] {
      assert all == [fn] && all[1..] == [];
    } else {
      assert all[1..] == fns[1..] + [fn];
      LineSecondsMore(w, i, fns[1..], fn, job);
    }
  }

  lemma {:induction false} LineSums(w: Workflow, i: nat, k: nat, job: string)
    requires k <= |Fns(w)|
    ensures SumSeconds(Fns(w), CallsOf(CallsOnLine(w, i, k), job)) == LineSeconds(w, i, Fns(w)[..k], job)
  {
    hide Fns, CallsOf, SumSeconds, SiteAt, CallSeconds, Budget, SecondsOf;
    var fns := Fns(w);
    if k == 0 {
      EmptyCalls(fns, job);
    } else {
      var fn, s := fns[k - 1], SiteAt(w, i, fns[k - 1]);
      assert fn in fns;
      LineSums(w, i, k - 1, job);
      assert fns[..k] == fns[..k - 1] + [fn];
      LineSecondsMore(w, i, fns[..k - 1], fn, job);
      CallSecondsMeaning(w, i, fn, job);
      var before := CallsOnLine(w, i, k - 1);
      if s.Counted? {
        OneMoreCall(fns, before, s.call, job);
        SecondsMeaning(w, s.call);
      } else {
        assert before + [] == before;
      }
    }
  }

  lemma EmptyCalls(fns: seq<WaitFunction>, job: string)
    ensures SumSeconds(fns, CallsOf([], job)) == 0
  {
  }

  lemma OneMoreCall(fns: seq<WaitFunction>, calls: seq<WaitCall>, c: WaitCall, job: string)
    ensures SumSeconds(fns, CallsOf(calls + [c], job)) == SumSeconds(fns, CallsOf(calls, job))
      + if c.job == job && Budget(fns, c).Some? then Budget(fns, c).value else 0
  {
    hide Budget;
    var all := calls + [c];
    assert all[..|all| - 1] == calls;
    var mine := CallsOf(calls, job);
    if c.job == job {
      assert CallsOf(all, job) == mine + [c] && (mine + [c])[..|mine|] == mine;
    } else {
      assert CallsOf(all, job) == mine + [] == mine;
    }
  }

  lemma {:induction false} MoreCalls(fns: seq<WaitFunction>, a: seq<WaitCall>, b: seq<WaitCall>, job: string)
    ensures SumSeconds(fns, CallsOf(a + b, job)) == SumSeconds(fns, CallsOf(a, job)) + SumSeconds(fns, CallsOf(b, job))
    decreases |b|
  {
    hide SumSeconds, CallsOf, Budget;
    if b == [] {
      assert a + b == a;
      EmptyCalls(fns, job);
    } else {
      var init, last := b[..|b| - 1], b[|b| - 1];
      assert a + b == a + init + [last] && b == init + [last];
      MoreCalls(fns, a, init, job);
      OneMoreCall(fns, a + init, last, job);
      OneMoreCall(fns, init, last, job);
    }
  }

  /** The budgets that the gate adds up are those of the calls, line by line. */
  lemma {:induction false} SumsMeaning(w: Workflow, n: nat, job: string)
    ensures SumSeconds(Fns(w), CallsOf(CallsBefore(w, n), job)) == TotalSeconds(w, n, job)
  {
    hide SumSeconds, CallsOf, CallsOnLine, LineSeconds, Keep;
    if n == 0 {
      EmptyCalls(Fns(w), job);
    } else {
      SumsMeaning(w, n - 1, job);
      MoreCalls(Fns(w), CallsBefore(w, n - 1), CallsOnLine(w, n - 1, |Fns(w)|), job);
      LineSums(w, n - 1, |Fns(w)|, job);
      assert Fns(w)[..|Fns(w)|] == Fns(w);
      LineKept(w, n - 1, w.parsed, job);
    }
  }

  // ---------------------------------------------------------------------
  // Jobs
  // ---------------------------------------------------------------------

  /** Some line makes the job wait. */
  ghost predicate Waits(w: Workflow, job: string) {
    exists i: nat, fn, c :: i < |w.lines| && CallIs(w, i, fn, c) && c.job == job
  }

  ghost predicate FirstJobAt(w: Workflow, name: string, k: nat) {
    && k < |JobsOf(w.lines)| && JobsOf(w.lines)[k].name == name
    && forall j :: 0 <= j < k ==> JobsOf(w.lines)[j].name != name
  }

  /** The call's budget is known and reaches its declared target, in minutes. */
  ghost predicate CallFits(w: Workflow, c: WaitCall) {
    exists n: nat, t :: BudgetIs(w, c, n) && c.directive == Some(t) && n as real / 60.0 + 0.000000001 >= t
  }

  /** m is the least integer that is at least x. */
  ghost predicate RoundsUp(m: int, x: real) {
    m as real >= x && m as real < x + 1.0
  }

  /** The timeout leaves room for the seconds, rounded up, and five minutes. */
  ghost predicate RoomFor(minutes: real, need: real) {
    forall m :: RoundsUp(m, need) ==> minutes * 60.0 + 0.000000001 >= m as real + 300.0
  }

  ghost predicate Room(minutes: real, seconds: nat) {
    RoomFor(minutes, 1.2 * seconds as real)
  }

  ghost predicate JobFits(w: Workflow, name: string) {
    forall k: nat :: FirstJobAt(w, name, k) ==>
      var job := JobsOf(w.lines)[k];
      && job.unparsable == None && job.timeout.Some? && Room(job.timeout.value, TotalSeconds(w, |w.lines|, name))
      && forall i: nat, fn, c :: i < |w.lines| && CallIs(w, i, fn, c) && c.job == name ==> CallFits(w, c)
  }

  /** Everything the gate asks of a file. */
  ghost predicate Acceptable(w: Workflow) {
    && Placed(w)
    && (forall i: nat, fn :: i < |w.lines| && CallAt(w, i, fn) ==> exists c :: CallIs(w, i, fn, c))
    && (forall name :: Waits(w, name) ==> JobFits(w, name))
    && (forall job :: job in JobsOf(w.lines) && job.unparsable != None ==> Waits(w, job.name))
  }

  lemma {:induction false} CallOnLine(w: Workflow, i: nat, k: nat, c: WaitCall)
    requires k <= |Fns(w)|
    ensures c in CallsOnLine(w, i, k) <==> exists f :: 0 <= f < k && SiteAt(w, i, Fns(w)[f]) == Counted(c)
  {
    hide SiteAt, Fns;
    if k > 0 {
      CallOnLine(w, i, k - 1, c);
    }
  }

  lemma {:induction false} CallBefore(w: Workflow, n: nat, c: WaitCall)
    ensures c in CallsBefore(w, n) <==> exists i: nat, fn :: i < n && CallIs(w, i, fn, c)
  {
    hide SiteAt, Fns, CallIs, CallsOnLine;
    if n > 0 {
      CallBefore(w, n - 1, c);
      CallOnLine(w, n - 1, |Fns(w)|, c);
      if f :| 0 <= f < |Fns(w)| && SiteAt(w, n - 1, Fns(w)[f]) == Counted(c) {
        assert Fns(w)[f] in Fns(w);
        SiteMeaning(w, n - 1, Fns(w)[f], c);
      }
      var line: nat := n - 1;
      if fn :| CallIs(w, line, fn, c) {
        InFns(w, line, fn, c);
        SiteMeaning(w, line, fn, c);
        var f :| 0 <= f < |Fns(w)| && Fns(w)[f] == fn;
      }
    }
  }

  lemma {:induction false} CallOfJob(calls: seq<WaitCall>, job: string, c: WaitCall)
    ensures c in CallsOf(calls, job) <==> c in calls && c.job == job
  {
    if calls != [] {
      CallOfJob(calls[..|calls| - 1], job, c);
      assert calls == calls[..|calls| - 1] + [calls[|calls| - 1]];
    }
  }

  lemma CallsMeaning(w: Workflow, job: string, c: WaitCall)
    ensures c in CallsOf(CallsBefore(w, |w.lines|), job) <==>
      c.job == job && exists i: nat, fn :: i < |w.lines| && CallIs(w, i, fn, c)
  {
    hide CallIs, CallsOf, CallsBefore;
    CallOfJob(CallsBefore(w, |w.lines|), job, c);
    CallBefore(w, |w.lines|, c);
  }

  lemma WaitsMeaning(w: Workflow, job: string)
    ensures CallsOf(CallsBefore(w, |w.lines|), job) != [] <==> Waits(w, job)
  {
    hide CallIs, CallsOf, CallsBefore;
    var calls := CallsOf(CallsBefore(w, |w.lines|), job);
    if calls != [] {
      assert calls[0] in calls;
      CallsMeaning(w, job, calls[0]);
    }
    if i: nat, fn, c :| i < |w.lines| && CallIs(w, i, fn, c) && c.job == job {
      CallsMeaning(w, job, c);
    }
  }

  lemma {:induction false} FindFirstJob(jobs: seq<Job>, name: string, k: nat)
    requires k < |jobs| && jobs[k].name == name && forall j :: 0 <= j < k ==> jobs[j].name != name
    ensures FindJob(jobs, name) == Some(jobs[k])
  {
    if k > 0 {
      FindFirstJob(jobs[1..], name, k - 1);
    }
  }

  lemma {:induction false} FirstJobExists(jobs: seq<Job>, name: string) returns (k: nat)
    requires FindJob(jobs, name).Some?
    ensures k < |jobs| && jobs[k].name == name && forall j :: 0 <= j < k ==> jobs[j].name != name
  {
    if jobs[0].name == name {
      k := 0;
    } else {
      var j := FirstJobExists(jobs[1..], name);
      k := j + 1;
      assert forall i :: 0 < i < |jobs| ==> jobs[i] == jobs[1..][i - 1];
    }
  }

  lemma CeilRoundsUp(n: int, x: real, m: int)
    ensures RoundsUp(m, n as real * x) <==> m == CeilMul(n, x)
  {
    var product := n as real * x;
    var f := (-product).Floor;
    assert f as real <= -product && -product < f as real + 1.0;
    if RoundsUp(m, product) {
      assert (m + f) as real > -1.0 && (m + f) as real < 1.0;
      assert m + f == 0;
    }
  }

  lemma Commutes(x: real, y: real)
    ensures x * y == y * x
  {
  }

  lemma RoomForOne(minutes: real, need: real, m: int)
    requires forall k :: RoundsUp(k, need) <==> k == m
    ensures RoomFor(minutes, need) <==> minutes * 60.0 + 0.000000001 >= m as real + 300.0
  {
    hide RoundsUp;
    assert RoundsUp(m, need);
  }

  lemma RoomMeaning(minutes: real, seconds: nat)
    ensures TimeoutCovers(minutes, seconds) <==> Room(minutes, seconds)
  {
    hide RoundsUp, CeilMul, RoomFor;
    var need := 1.2 * seconds as real;
    var m := CeilMul(seconds, 1.2);
    Commutes(seconds as real, 1.2);
    forall k
      ensures RoundsUp(k, need) <==> k == m
    {
      CeilRoundsUp(seconds, 1.2, k);
    }
    RoomForOne(minutes, need, m);
    assert (m + 300) as real == m as real + 300.0;
    assert TimeoutCovers(minutes, seconds) <==> minutes * 60.0 + 0.000000001 >= (m + 300) as real;
  }

  lemma CallFitsMeaning(w: Workflow, c: WaitCall)
    requires FindFunction(Fns(w), c.fn).Some?
    ensures CallCovered(Fns(w), c) <==> CallFits(w, c)
  {
    hide Budget, BudgetIs, Fns, FindFunction;
    forall n: nat
      ensures Budget(Fns(w), c) == Some(n) <==> BudgetIs(w, c, n)
    {
      BudgetMeaning(w, c, n);
    }
    if CallCovered(Fns(w), c) {
      assert BudgetIs(w, c, Budget(Fns(w), c).value);
    }
  }

  lemma JobFitsMeaning(w: Workflow, name: string)
    ensures JobCovered(JobsOf(w.lines), Fns(w), name, CallsOf(CallsBefore(w, |w.lines|), name)) <==> JobFits(w, name)
  {
    hide JobsOf, Fns, CallsOf, CallsBefore, CallIs, CallFits, CallCovered, Room, TimeoutCovers, SumSeconds, TotalSeconds,
         FindFunction;
    var jobs, calls := JobsOf(w.lines), CallsOf(CallsBefore(w, |w.lines|), name);
    SumsMeaning(w, |w.lines|, name);
    CallsAllFit(w, name);
    if FindJob(jobs, name).Some? {
      var k := FirstJobExists(jobs, name);
      FindFirstJob(jobs, name, k);
      assert FirstJobAt(w, name, k);
      if jobs[k].timeout.Some? {
        RoomMeaning(jobs[k].timeout.value, SumSeconds(Fns(w), calls));
      }
    }
    forall k: nat | FirstJobAt(w, name, k)
      ensures FindJob(jobs, name) == Some(jobs[k])
    {
      FindFirstJob(jobs, name, k);
    }
  }

  lemma CallsAllFit(w: Workflow, name: string)
    ensures var calls := CallsOf(CallsBefore(w, |w.lines|), name);
      (forall i :: 0 <= i < |calls| ==> CallCovered(Fns(w), calls[i])) <==>
      (forall i: nat, fn, c :: i < |w.lines| && CallIs(w, i, fn, c) && c.job == name ==> CallFits(w, c))
  {
    hide Fns, CallsOf, CallsBefore, CallIs, CallFits, CallCovered, FindFunction;
    var calls := CallsOf(CallsBefore(w, |w.lines|), name);
    CallsKnown(w, |w.lines|);
    CallsOfKnown(Fns(w), CallsBefore(w, |w.lines|), name);
    forall i | 0 <= i < |calls|
      ensures CallCovered(Fns(w), calls[i]) <==> CallFits(w, calls[i])
      ensures exists j: nat, fn :: j < |w.lines| && CallIs(w, j, fn, calls[i]) && calls[i].job == name
    {
      CallFitsMeaning(w, calls[i]);
      assert calls[i] in calls;
      CallsMeaning(w, name, calls[i]);
    }
    forall i: nat, fn, c | i < |w.lines| && CallIs(w, i, fn, c) && c.job == name
      ensures exists k :: 0 <= k < |calls| && calls[k] == c
    {
      CallsMeaning(w, name, c);
    }
  }

  lemma NoProblemMeaning(w: Workflow)
    ensures NoProblem(w, |w.lines|, 0) <==>
      forall i: nat, fn :: i < |w.lines| && CallAt(w, i, fn) ==> exists c :: CallIs(w, i, fn, c)
  {
    hide SiteAt, Fns, CallAt, CallIs;
    forall i: nat, fn | i < |w.lines| && fn in Fns(w)
      ensures !SiteAt(w, i, fn).Problem? <==> (CallAt(w, i, fn) ==> exists c :: CallIs(w, i, fn, c))
    {
      var s := SiteAt(w, i, fn);
      if s.Counted? {
        SiteMeaning(w, i, fn, s.call);
      } else {
        forall c
          ensures s == NoSite <==> !CallAt(w, i, fn)
          ensures !CallIs(w, i, fn, c)
        {
          SiteMeaning(w, i, fn, c);
        }
        SiteMeaning(w, i, fn, WaitCall("", "", "", None, None, 0, None));
      }
    }
    forall i: nat, fn | CallAt(w, i, fn)
      ensures fn in Fns(w)
    {
      CallInFns(w, i, fn);
    }
  }

  lemma CallInFns(w: Workflow, i: nat, fn: WaitFunction)
    requires CallAt(w, i, fn)
    ensures fn in Fns(w)
  {
    hide Ended;
    FnsMeaning(w, fn);
  }

  /** The gate finds nothing exactly when the file is acceptable. */
  lemma CoveredMeaning(w: Workflow)
    ensures Covered(w) <==> Acceptable(w)
  {
    hide WaitsPlaced, Placed, NoProblem, CallAt, CallIs, CallsOf, CallsBefore, JobsOf, JobCovered, JobFits, Waits, Fns;
    PlacedMeaning(w);
    NoProblemMeaning(w);
    forall name
      ensures CallsOf(CallsBefore(w, |w.lines|), name) != [] <==> Waits(w, name)
      ensures JobCovered(JobsOf(w.lines), Fns(w), name, CallsOf(CallsBefore(w, |w.lines|), name)) <==> JobFits(w, name)
    {
      WaitsMeaning(w, name);
      JobFitsMeaning(w, name);
    }
    if Covered(w) {
      forall job | job in JobsOf(w.lines) && job.unparsable != None
        ensures Waits(w, job.name)
      {
        var j :| 0 <= j < |JobsOf(w.lines)| && JobsOf(w.lines)[j] == job;
      }
    }
  }
}
