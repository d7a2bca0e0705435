/** Job blocks of a workflow file. What the gate's regular expressions say
    about a line is the input; how the blocks are put together is the model. */
module WorkflowJobs {
  import opened Text

  datatype TimeoutValue = Minutes(minutes: real) | Unparsable(raw: string)

  /** `jobsKey`: the line opens the jobs region; `topLevel`: it starts in column
      one; `comment`: it starts with a hash sign; `job`: it has the shape of a
      job key, with that indentation and name; `timeout`: it is a
      timeout-minutes line indented by that many blanks. */
  datatype YamlLine = YamlLine(
    jobsKey: bool, topLevel: bool, comment: bool,
    job: Option<(string, string)>, timeout: Option<(nat, TimeoutValue)>)

  datatype Job = Job(name: string, start: nat, end: nat, timeout: Option<real>, unparsable: Option<string>)

  /** The parser's variables. While `open`, the last block is still current. */
  datatype State = State(inJobs: bool, open: bool, jobs: seq<Job>, indent: Option<string>, regionEnd: Option<nat>)

  const START := State(false, false, [], None, None)

  function WithTimeout(job: Job, v: TimeoutValue): Job {
    match v
    case Minutes(m) => job.(timeout := Some(m))
    case Unparsable(raw) => job.(unparsable := Some(raw))
  }

  function Read(s: State, line: YamlLine, i: nat, n: nat): State
    requires s.open ==> s.jobs != []
  {
    if line.jobsKey then s.(inJobs := true, open := false)
    else if line.topLevel then
      if s.inJobs && !line.comment then s.(inJobs := false, open := false, regionEnd := Some(i)) else s
    else if !s.inJobs then s
    else if line.job.Some? && (s.indent.None? || s.indent.value == line.job.value.0) then
      s.(open := true, indent := Some(line.job.value.0),
         jobs := s.jobs + [Job(line.job.value.1, i, n, None, None)])
    else if s.open && s.indent.Some? && line.timeout.Some? && line.timeout.value.0 == |s.indent.value| + 2 then
      var k := |s.jobs| - 1;
      s.(jobs := s.jobs[k := WithTimeout(s.jobs[k], line.timeout.value.1)])
    else s
  }

  function ReadAll(lines: seq<YamlLine>, k: nat): (s: State)
    requires k <= |lines|
    ensures s.open ==> s.jobs != []
  {
    if k == 0 then START else Read(ReadAll(lines, k - 1), lines[k - 1], k - 1, |lines|)
  }

  function NextStart(jobs: seq<Job>, j: nat): nat
    requires j < |jobs|
  {
    if j + 1 < |jobs| then jobs[j + 1].start else jobs[j].end
  }

  /** A block ends at the next block's start and within the jobs region. */
  function ClosedBlock(jobs: seq<Job>, regionEnd: Option<nat>, j: nat): (r: Job)
    requires j < |jobs|
    ensures r.start == jobs[j].start && r.end <= NextStart(jobs, j)
  {
    var end := NextStart(jobs, j);
    jobs[j].(end := if regionEnd.Some? && regionEnd.value < end then regionEnd.value else end)
  }

  function Closed(jobs: seq<Job>, regionEnd: Option<nat>): (r: seq<Job>)
    ensures |r| == |jobs| && forall j :: 0 <= j < |r| ==> r[j] == ClosedBlock(jobs, regionEnd, j)
  {
    seq(|jobs|, j requires 0 <= j < |jobs| => ClosedBlock(jobs, regionEnd, j))
  }

  function JobsOf(lines: seq<YamlLine>): seq<Job> {
    var s := ReadAll(lines, |lines|);
    Closed(s.jobs, s.regionEnd)
  }

  method ParseWorkflowJobs(lines: seq<YamlLine>) returns (jobs: seq<Job>)
    ensures jobs == JobsOf(lines)
  {
    jobs := [];
    var inJobs, open := false, false;
    var indent: Option<string>, regionEnd: Option<nat> := None, None;
    for i := 0 to |lines|
      invariant State(inJobs, open, jobs, indent, regionEnd) == ReadAll(lines, i)
    {
      var line := lines[i];
      if line.jobsKey {
        inJobs, open := true, false;
        continue;
      }
      if line.topLevel {
        if inJobs && !line.comment {
          inJobs, open, regionEnd := false, false, Some(i);
        }
        continue;
      }
      if !inJobs {
        continue;
      }
      if line.job.Some? && (indent.None? || indent.value == line.job.value.0) {
        indent, open := Some(line.job.value.0), true;
        jobs := jobs + [Job(line.job.value.1, i, |lines|, None, None)];
        continue;
      }
      if open && indent.Some? && line.timeout.Some? && line.timeout.value.0 == |indent.value| + 2 {
        jobs := jobs[|jobs| - 1 := WithTimeout(jobs[|jobs| - 1], line.timeout.value.1)];
      }
    }
    jobs := CloseBlocks(jobs, regionEnd);
  }

  method CloseBlocks(read: seq<Job>, regionEnd: Option<nat>) returns (jobs: seq<Job>)
    ensures jobs == Closed(read, regionEnd)
  {
    hide Closed;
    jobs := read;
    for j := 0 to |jobs|
      invariant |jobs| == |read|
      invariant forall k :: 0 <= k < j ==> jobs[k] == Closed(read, regionEnd)[k]
      invariant forall k :: j <= k < |jobs| ==> jobs[k] == read[k]
    {
      var end := if j + 1 < |jobs| then jobs[j + 1].start else jobs[j].end;
      if regionEnd.Some? && regionEnd.value < end {
        end := regionEnd.value;
      }
      jobs := jobs[j := jobs[j].(end := end)];
    }
  }

  // ---------------------------------------------------------------------
  // Blocks are ordered and disjoint
  // ---------------------------------------------------------------------

  ghost predicate StartsInOrder(jobs: seq<Job>, k: nat, n: nat) {
    && (forall i :: 0 <= i < |jobs| ==> jobs[i].start < k && jobs[i].end == n)
    && (forall i, j :: 0 <= i < j < |jobs| ==> jobs[i].start < jobs[j].start)
  }

  lemma {:induction false} ReadInOrder(lines: seq<YamlLine>, k: nat)
    requires k <= |lines|
    ensures StartsInOrder(ReadAll(lines, k).jobs, k, |lines|)
  {
    if k > 0 {
      ReadInOrder(lines, k - 1);
    }
  }

  ghost predicate Disjoint(jobs: seq<Job>, n: nat) {
    && (forall i :: 0 <= i < |jobs| ==> jobs[i].start < n && jobs[i].end <= n)
    && (forall i, j :: 0 <= i < j < |jobs| ==> jobs[i].start < jobs[j].start && jobs[i].end <= jobs[j].start)
  }

  lemma NextStartBefore(read: seq<Job>, i: nat, j: nat, n: nat)
    requires StartsInOrder(read, n, n) && i <= j < |read|
    ensures NextStart(read, i) <= n && (i < j ==> NextStart(read, i) <= read[j].start)
  {
  }

  lemma ClosedDisjoint(read: seq<Job>, regionEnd: Option<nat>, n: nat)
    requires StartsInOrder(read, n, n)
    ensures Disjoint(Closed(read, regionEnd), n)
  {
    hide Closed, ClosedBlock, NextStart;
    var jobs := Closed(read, regionEnd);
    forall i, j | 0 <= i < j < |jobs|
      ensures jobs[i].start < jobs[j].start && jobs[i].end <= jobs[j].start
    {
      NextStartBefore(read, i, j, n);
    }
    forall i | 0 <= i < |jobs|
      ensures jobs[i].end <= n
    {
      NextStartBefore(read, i, i, n);
    }
  }

  /** Blocks come in file order, none reaches into the next, and no line
      belongs to two of them. */
  lemma JobsDisjoint(lines: seq<YamlLine>)
    ensures Disjoint(JobsOf(lines), |lines|)
  {
    hide ReadAll, Closed;
    ReadInOrder(lines, |lines|);
    var s := ReadAll(lines, |lines|);
    ClosedDisjoint(s.jobs, s.regionEnd, |lines|);
  }

  // ---------------------------------------------------------------------
  // Which lines open a block, and what a block says
  // ---------------------------------------------------------------------

  /** The last region marker before line k opens the jobs region. */
  predicate InRegion(lines: seq<YamlLine>, k: nat)
    requires k <= |lines|
  {
    k > 0 &&
    (lines[k - 1].jobsKey || (InRegion(lines, k - 1) && (lines[k - 1].topLevel ==> lines[k - 1].comment)))
  }

  /** An indented line of the region that has the shape of a job key. */
  predicate IsKey(lines: seq<YamlLine>, k: nat)
    requires k < |lines|
  {
    InRegion(lines, k) && !lines[k].jobsKey && !lines[k].topLevel && lines[k].job.Some?
  }

  function IndentAt(lines: seq<YamlLine>, k: nat): string
    requires k < |lines|
  {
    if lines[k].job.Some? then lines[k].job.value.0 else ""
  }

  /** The indentation of the first block's key. */
  function JobIndent(lines: seq<YamlLine>, jobs: seq<Job>): string {
    if jobs != [] && jobs[0].start < |lines| then IndentAt(lines, jobs[0].start) else ""
  }

  predicate OpensAtKey(lines: seq<YamlLine>, job: Job, k: nat, indent: string)
    requires k <= |lines|
  {
    job.start < k && IsKey(lines, job.start) && job.name == lines[job.start].job.value.1
    && IndentAt(lines, job.start) == indent
  }

  ghost predicate Listed(jobs: seq<Job>, i: nat) {
    exists j :: 0 <= j < |jobs| && jobs[j].start == i
  }

  /** The blocks start at exactly the keys indented like the first key. */
  ghost predicate StartsAtKeys(lines: seq<YamlLine>, jobs: seq<Job>, k: nat)
    requires k <= |lines|
  {
    && (forall j :: 0 <= j < |jobs| ==> OpensAtKey(lines, jobs[j], k, JobIndent(lines, jobs)))
    && (forall i :: 0 <= i < k && IsKey(lines, i) ==> jobs != [] && jobs[0].start <= i)
    && (forall i :: 0 <= i < k && IsKey(lines, i) && IndentAt(lines, i) == JobIndent(lines, jobs) ==> Listed(jobs, i))
  }

  ghost predicate Tracks(lines: seq<YamlLine>, s: State, k: nat)
    requires k <= |lines|
  {
    && s.inJobs == InRegion(lines, k) && StartsAtKeys(lines, s.jobs, k)
    && s.indent == if s.jobs == [] then None else Some(JobIndent(lines, s.jobs))
  }

  lemma {:induction false} ReadTracks(lines: seq<YamlLine>, k: nat)
    requires k <= |lines|
    ensures Tracks(lines, ReadAll(lines, k), k)
  {
    if k > 0 {
      ReadTracks(lines, k - 1);
      ReadOne(lines, k - 1);
      TracksStep(lines, ReadAll(lines, k - 1), k - 1);
    }
  }

  lemma SameStarts(lines: seq<YamlLine>, jobs: seq<Job>, jobs': seq<Job>, k: nat)
    requires k <= |lines| && StartsAtKeys(lines, jobs, k) && |jobs'| == |jobs|
    requires forall j :: 0 <= j < |jobs| ==> jobs'[j].start == jobs[j].start && jobs'[j].name == jobs[j].name
    ensures StartsAtKeys(lines, jobs', k) && JobIndent(lines, jobs') == JobIndent(lines, jobs)
  {
    hide IsKey;
    forall i | Listed(jobs, i)
      ensures Listed(jobs', i)
    {
      var j :| 0 <= j < |jobs| && jobs[j].start == i;
      assert jobs'[j].start == i;
    }
    forall j | 0 <= j < |jobs'|
      ensures OpensAtKey(lines, jobs'[j], k, JobIndent(lines, jobs'))
    {
      assert OpensAtKey(lines, jobs[j], k, JobIndent(lines, jobs));
    }
  }

  lemma NoNewKey(lines: seq<YamlLine>, jobs: seq<Job>, k: nat)
    requires k < |lines| && StartsAtKeys(lines, jobs, k)
    requires IsKey(lines, k) ==> jobs != [] && IndentAt(lines, k) != JobIndent(lines, jobs)
    ensures StartsAtKeys(lines, jobs, k + 1)
  {
    hide IsKey, Listed;
    assert forall j :: 0 <= j < |jobs| ==> OpensAtKey(lines, jobs[j], k, JobIndent(lines, jobs));
    if jobs != [] {
      assert OpensAtKey(lines, jobs[0], k, JobIndent(lines, jobs));
    }
  }

  lemma NewKey(lines: seq<YamlLine>, jobs: seq<Job>, job: Job, k: nat)
    requires k < |lines| && StartsAtKeys(lines, jobs, k) && IsKey(lines, k)
    requires job.start == k && job.name == lines[k].job.value.1
    requires jobs == [] || IndentAt(lines, k) == JobIndent(lines, jobs)
    ensures StartsAtKeys(lines, jobs + [job], k + 1)
    ensures JobIndent(lines, jobs + [job]) == IndentAt(lines, k)
  {
    hide IsKey;
    var jobs' := jobs + [job];
    if jobs != [] {
      assert OpensAtKey(lines, jobs[0], k, JobIndent(lines, jobs));
      assert JobIndent(lines, jobs') == JobIndent(lines, jobs);
    }
    forall j | 0 <= j < |jobs'|
      ensures OpensAtKey(lines, jobs'[j], k + 1, JobIndent(lines, jobs'))
    {
      if j < |jobs| {
        assert OpensAtKey(lines, jobs[j], k, JobIndent(lines, jobs));
      }
    }
    forall i | 0 <= i < k + 1 && IsKey(lines, i) && IndentAt(lines, i) == JobIndent(lines, jobs')
      ensures Listed(jobs', i)
    {
      if i < k {
        var j :| 0 <= j < |jobs| && jobs[j].start == i;
        assert jobs'[j].start == i;
      } else {
        assert jobs'[|jobs|].start == i;
      }
    }
  }

  lemma TracksStep(lines: seq<YamlLine>, s: State, k: nat)
    requires k < |lines| && (s.open ==> s.jobs != []) && Tracks(lines, s, k)
    ensures Tracks(lines, Read(s, lines[k], k, |lines|), k + 1)
  {
    hide StartsAtKeys, JobIndent;
    var line, t := lines[k], Read(s, lines[k], k, |lines|);
    if |t.jobs| > |s.jobs| {
      NewKey(lines, s.jobs, t.jobs[|s.jobs|], k);
      assert t.jobs == s.jobs + [t.jobs[|s.jobs|]];
    } else {
      SameStarts(lines, s.jobs, t.jobs, k);
      NoNewKey(lines, t.jobs, k);
    }
  }

  lemma ReadOne(lines: seq<YamlLine>, k: nat)
    requires k < |lines|
    ensures ReadAll(lines, k + 1) == Read(ReadAll(lines, k), lines[k], k, |lines|)
  {
  }

  /** What a block says on its own, read from its start alone. */
  datatype Body = Body(live: bool, timeout: Option<real>, unparsable: Option<string>)

  predicate Ends(line: YamlLine, indent: string) {
    line.jobsKey || (line.topLevel && !line.comment)
    || (!line.topLevel && line.job.Some? && line.job.value.0 == indent)
  }

  predicate Sets(line: YamlLine, indent: string) {
    !line.topLevel && line.timeout.Some? && line.timeout.value.0 == |indent| + 2
  }

  /** The last settings between the block's start and line k or its end. */
  function BodyOf(lines: seq<YamlLine>, start: nat, k: nat): Body
    requires start < k <= |lines|
  {
    if k == start + 1 then Body(true, None, None) else
      var b, line, indent := BodyOf(lines, start, k - 1), lines[k - 1], IndentAt(lines, start);
      if !b.live then b
      else if Ends(line, indent) then b.(live := false)
      else if !Sets(line, indent) then b
      else
        match line.timeout.value.1
        case Minutes(m) => b.(timeout := Some(m))
        case Unparsable(raw) => b.(unparsable := Some(raw))
  }

  ghost predicate SaysBody(lines: seq<YamlLine>, job: Job, k: nat)
    requires k <= |lines|
  {
    job.start < k && job.timeout == BodyOf(lines, job.start, k).timeout
    && job.unparsable == BodyOf(lines, job.start, k).unparsable
  }

  ghost predicate BodyTracked(lines: seq<YamlLine>, s: State, k: nat, j: nat)
    requires k <= |lines| && j < |s.jobs|
  {
    SaysBody(lines, s.jobs[j], k) && (BodyOf(lines, s.jobs[j].start, k).live <==> s.open && j == |s.jobs| - 1)
  }

  ghost predicate AllBodiesTracked(lines: seq<YamlLine>, s: State, k: nat)
    requires k <= |lines|
  {
    (s.open ==> s.inJobs) && forall j :: 0 <= j < |s.jobs| ==> BodyTracked(lines, s, k, j)
  }

  lemma {:induction false} ReadBodies(lines: seq<YamlLine>, k: nat)
    requires k <= |lines|
    ensures AllBodiesTracked(lines, ReadAll(lines, k), k)
  {
    if k > 0 {
      hide AllBodiesTracked, Tracks, Read;
      ReadBodies(lines, k - 1);
      ReadTracks(lines, k - 1);
      BodiesStep(lines, ReadAll(lines, k - 1), k - 1);
    }
  }

  lemma BodiesStep(lines: seq<YamlLine>, s: State, k: nat)
    requires k < |lines| && (s.open ==> s.jobs != []) && Tracks(lines, s, k) && AllBodiesTracked(lines, s, k)
    ensures AllBodiesTracked(lines, Read(s, lines[k], k, |lines|), k + 1)
  {
    hide BodyTracked, Tracks;
    var t, next := Read(s, lines[k], k, |lines|), k + 1;
    forall j | 0 <= j < |t.jobs|
      ensures BodyTracked(lines, t, next, j)
    {
      if j < |s.jobs| {
        BodyStep(lines, s, k, j);
      } else {
        BodyStarts(lines, s, k);
      }
    }
  }

  lemma BodyStarts(lines: seq<YamlLine>, s: State, k: nat)
    requires k < |lines| && (s.open ==> s.jobs != [])
    requires |Read(s, lines[k], k, |lines|).jobs| > |s.jobs|
    ensures BodyTracked(lines, Read(s, lines[k], k, |lines|), k + 1, |s.jobs|)
  {
  }

  lemma BodyStep(lines: seq<YamlLine>, s: State, k: nat, j: nat)
    requires k < |lines| && (s.open ==> s.jobs != [] && s.inJobs) && Tracks(lines, s, k)
    requires j < |s.jobs| && BodyTracked(lines, s, k, j)
    ensures BodyTracked(lines, Read(s, lines[k], k, |lines|), k + 1, j)
  {
    hide IsKey, InRegion, Listed;
    assert OpensAtKey(lines, s.jobs[j], k, JobIndent(lines, s.jobs));
    var b := BodyOf(lines, s.jobs[j].start, k);
    var indent := IndentAt(lines, s.jobs[j].start);
    assert s.indent == Some(indent);
  }

  /** The blocks of a file: one per key indented like the first, named after
      it, each with the last timeout setting of its own lines. */
  lemma JobsMeaning(lines: seq<YamlLine>)
    ensures StartsAtKeys(lines, JobsOf(lines), |lines|)
    ensures forall j :: 0 <= j < |JobsOf(lines)| ==> SaysBody(lines, JobsOf(lines)[j], |lines|)
  {
    hide ReadAll, BodyOf, StartsAtKeys;
    ReadTracks(lines, |lines|);
    ReadBodies(lines, |lines|);
    var s, jobs := ReadAll(lines, |lines|), JobsOf(lines);
    SameStarts(lines, s.jobs, jobs, |lines|);
    forall j | 0 <= j < |jobs|
      ensures SaysBody(lines, jobs[j], |lines|)
    {
      assert BodyTracked(lines, s, |lines|, j);
    }
  }

  /** A top-level key closes the jobs region at line k. */
  ghost predicate ClosesRegion(lines: seq<YamlLine>, k: nat) {
    k < |lines| && InRegion(lines, k) && lines[k].topLevel && !lines[k].comment && !lines[k].jobsKey
  }

  /** r is the last such line before k. */
  ghost predicate LastClosing(lines: seq<YamlLine>, k: nat, r: nat) {
    r < k && ClosesRegion(lines, r) && forall i :: r < i < k ==> !ClosesRegion(lines, i)
  }

  lemma {:induction false} ReadRegionEnd(lines: seq<YamlLine>, k: nat)
    requires k <= |lines|
    ensures forall r: nat :: ReadAll(lines, k).regionEnd == Some(r) <==> LastClosing(lines, k, r)
  {
    hide ClosesRegion;
    if k > 0 {
      ReadRegionEnd(lines, k - 1);
      ReadTracks(lines, k - 1);
      RegionEndStep(lines, ReadAll(lines, k - 1), k - 1);
      ReadOne(lines, k - 1);
      var n := k - 1;
      if ClosesRegion(lines, n) {
        assert forall r: nat :: LastClosing(lines, k, r) <==> r == n;
      } else {
        assert forall r: nat :: LastClosing(lines, k, r) <==> LastClosing(lines, n, r);
      }
    }
  }

  lemma RegionEndStep(lines: seq<YamlLine>, s: State, k: nat)
    requires k < |lines| && (s.open ==> s.jobs != []) && s.inJobs == InRegion(lines, k)
    ensures Read(s, lines[k], k, |lines|).regionEnd == if ClosesRegion(lines, k) then Some(k) else s.regionEnd
  {
    hide InRegion;
  }

  /** Where a block ends: at the next block or the end of the file, but no later
      than the last line that closes the jobs region. */
  lemma BlockEnds(lines: seq<YamlLine>, j: nat)
    requires j < |JobsOf(lines)|
    ensures var jobs := JobsOf(lines);
      var next := if j + 1 < |jobs| then jobs[j + 1].start else |lines|;
      && (forall r: nat :: LastClosing(lines, |lines|, r) ==> jobs[j].end == if r < next then r else next)
      && ((forall r: nat :: !LastClosing(lines, |lines|, r)) ==> jobs[j].end == next)
  {
    hide ReadAll, LastClosing;
    ReadRegionEnd(lines, |lines|);
    ReadInOrder(lines, |lines|);
    var s := ReadAll(lines, |lines|);
    assert s.regionEnd == None || LastClosing(lines, |lines|, s.regionEnd.value);
  }

  // ---------------------------------------------------------------------
  // Attribution
  // ---------------------------------------------------------------------

  predicate Holds(job: Job, line: nat) {
    job.start <= line < job.end
  }

  /** The first block that holds the line. */
  function JobAt(jobs: seq<Job>, line: nat): (r: Option<Job>)
    ensures r.Some? ==> r.value in jobs && r.value.start <= line < r.value.end
    ensures r.None? ==> forall j :: 0 <= j < |jobs| ==> !(jobs[j].start <= line < jobs[j].end)
  {
    if jobs == [] then None
    else if Holds(jobs[0], line) then Some(jobs[0])
    else
      var r := JobAt(jobs[1..], line);
      assert forall j :: 1 <= j < |jobs| ==> jobs[j] == jobs[1..][j - 1];
      r
  }

  /** Which block a line belongs to does not depend on the search order. */
  lemma JobAtUnique(lines: seq<YamlLine>, line: nat, job: Job)
    requires job in JobsOf(lines) && job.start <= line < job.end
    ensures JobAt(JobsOf(lines), line) == Some(job)
  {
    hide JobsOf;
    JobsDisjoint(lines);
  }
}
