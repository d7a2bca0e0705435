/** The vacuous-assertion ratchet: per-file counts against a committed
    baseline that may only shrink, and what runs of accepted changes keep. */
module VacuousRatchet {
  import opened Text

  predicate IsTestFile(file: string) {
    |file| >= 8 && file[|file| - 8..] == ".test.ts"
  }

  datatype Input = Input(
    changedFiles: seq<string>,
    currentCount: string -> Option<nat>,
    baseline: map<string, nat>,
    baselineAtBase: Option<map<string, nat>>,
    enforce: bool)

  datatype Result = Result(newFiles: nat, ratchet: nat, growth: nat, violations: nat, exitCode: int)

  function Allowed(baseline: map<string, nat>, file: string): nat {
    if file in baseline then baseline[file] else 0
  }

  /** A changed test file that still exists has no more sites than allowed. */
  ghost predicate FileOk(input: Input, file: string) {
    IsTestFile(file) && input.currentCount(file).Some? && input.currentCount(file).value > 0 ==>
      file in input.baseline && input.currentCount(file).value <= input.baseline[file]
  }

  /** The baseline has no entry that is new or larger than at the base. */
  ghost predicate Shrunk(base: map<string, nat>, baseline: map<string, nat>) {
    forall f :: f in baseline ==> f in base && baseline[f] <= base[f]
  }

  /** A changed test file with sites and no baseline entry. */
  predicate IsNewOffender(input: Input, file: string) {
    IsTestFile(file) && file !in input.baseline
    && input.currentCount(file).Some? && input.currentCount(file).value > 0
  }

  /** A changed test file that outgrew its baseline entry. */
  predicate IsOutgrown(input: Input, file: string) {
    IsTestFile(file) && file in input.baseline
    && input.currentCount(file).Some? && input.currentCount(file).value > input.baseline[file]
  }

  lemma TestFileMeaning(file: string)
    ensures IsTestFile(file) <==> exists stem :: file == stem + ".test.ts"
  {
    if IsTestFile(file) {
      assert file == file[..|file| - 8] + ".test.ts";
    }
  }

  function Count(files: seq<string>, bad: string -> bool): nat {
    if files == [] then 0 else Count(files[..|files| - 1], bad) + if bad(files[|files| - 1]) then 1 else 0
  }

  /** It counts the places in the list that are bad. */
  lemma {:induction false} CountMeaning(files: seq<string>, bad: string -> bool)
    ensures Count(files, bad) == |set i | 0 <= i < |files| && bad(files[i])|
  {
    if files != [] {
      var n := |files| - 1;
      CountMeaning(files[..n], bad);
      var before, all := (set i | 0 <= i < n && bad(files[..n][i])), (set i | 0 <= i < |files| && bad(files[i]));
      assert forall i :: 0 <= i < n ==> files[..n][i] == files[i];
      assert all == before + if bad(files[n]) then {n} else {};
    }
  }

  predicate Grew(base: map<string, nat>, baseline: map<string, nat>, f: string)
    requires f in baseline
  {
    f !in base || baseline[f] > base[f]
  }

  function GrownEntries(base: map<string, nat>, baseline: map<string, nat>): set<string> {
    set f | f in baseline && Grew(base, baseline, f)
  }

  ghost predicate Clean(input: Input) {
    && (forall i :: 0 <= i < |input.changedFiles| ==> FileOk(input, input.changedFiles[i]))
    && (input.baselineAtBase.Some? ==> Shrunk(input.baselineAtBase.value, input.baseline))
  }

  method CountGrown(base: map<string, nat>, baseline: map<string, nat>) returns (growth: nat)
    ensures growth == |GrownEntries(base, baseline)|
    ensures growth == 0 <==> Shrunk(base, baseline)
  {
    hide Grew, Shrunk;
    growth := 0;
    var rest := baseline.Keys;
    ghost var grown: set<string> := {};
    while rest != {}
      invariant rest <= baseline.Keys
      invariant forall f :: f in grown <==> f in baseline && f !in rest && Grew(base, baseline, f)
      invariant growth == |grown|
      decreases rest
    {
      var file :| file in rest;
      rest := rest - {file};
      if Grew(base, baseline, file) {
        growth, grown := growth + 1, grown + {file};
      }
    }
    assert grown == GrownEntries(base, baseline);
    NoneGrown(base, baseline);
  }

  lemma NoneGrown(base: map<string, nat>, baseline: map<string, nat>)
    ensures GrownEntries(base, baseline) == {} <==> Shrunk(base, baseline)
  {
    if GrownEntries(base, baseline) == {} {
      forall f | f in baseline
        ensures f in base && baseline[f] <= base[f]
      {
        assert f !in GrownEntries(base, baseline);
      }
    }
  }

  method EvaluateRatchet(input: Input) returns (r: Result)
    ensures r.newFiles == Count(input.changedFiles, f => IsNewOffender(input, f))
    ensures r.ratchet == Count(input.changedFiles, f => IsOutgrown(input, f))
    ensures r.growth == if input.baselineAtBase.None? then 0
                        else |GrownEntries(input.baselineAtBase.value, input.baseline)|
    ensures r.violations == r.newFiles + r.ratchet + r.growth
    ensures r.violations == 0 <==> Clean(input)
    ensures r.exitCode == if input.enforce && !Clean(input) then 1 else 0
  {
    var newFiles, ratchet, growth := 0, 0, 0;
    ghost var isNew, isOutgrown := f => IsNewOffender(input, f), f => IsOutgrown(input, f);
    for i := 0 to |input.changedFiles|
      invariant newFiles == Count(input.changedFiles[..i], isNew)
      invariant ratchet == Count(input.changedFiles[..i], isOutgrown)
      invariant newFiles + ratchet == 0 <==> forall k :: 0 <= k < i ==> FileOk(input, input.changedFiles[k])
    {
      var file := input.changedFiles[i];
      assert input.changedFiles[..i + 1][..i] == input.changedFiles[..i];
      if file == "" || !IsTestFile(file) {
        continue;
      }
      var now := input.currentCount(file);
      if now.None? {
        continue;
      }
      if file !in input.baseline {
        if now.value > 0 {
          newFiles := newFiles + 1;
        }
        continue;
      }
      if now.value > input.baseline[file] {
        ratchet := ratchet + 1;
      }
    }
    assert input.changedFiles[..|input.changedFiles|] == input.changedFiles;
    if input.baselineAtBase.Some? {
      growth := CountGrown(input.baselineAtBase.value, input.baseline);
    }
    var violations := newFiles + ratchet + growth;
    r := Result(newFiles, ratchet, growth, violations, if violations > 0 && input.enforce then 1 else 0);
  }

  // ---------------------------------------------------------------------
  // Runs
  // ---------------------------------------------------------------------

  /** A commit: the site counts of its files and its baseline. */
  datatype Commit = Commit(counts: map<string, nat>, baseline: map<string, nat>)

  function CountOf(counts: map<string, nat>, file: string): Option<nat> {
    if file in counts then Some(counts[file]) else None
  }

  function Sites(c: Commit, file: string): nat {
    if file in c.counts then c.counts[file] else 0
  }

  ghost function InputOf(before: Commit, after: Commit, changed: seq<string>): Input {
    Input(changed, f => CountOf(after.counts, f), after.baseline, Some(before.baseline), true)
  }

  /** An accepted change: enforced, clean, and with every test file whose
      count rose among the changed files. */
  ghost predicate Step(before: Commit, after: Commit, changed: seq<string>) {
    && Clean(InputOf(before, after, changed))
    && forall f :: IsTestFile(f) && Sites(after, f) > Sites(before, f) ==> f in changed
  }

  ghost predicate Run(commits: seq<Commit>, changes: seq<seq<string>>) {
    && |commits| == |changes| + 1
    && forall i :: 0 <= i < |changes| ==> Step(commits[i], commits[i + 1], changes[i])
  }

  ghost predicate Within(c: Commit, baseline: map<string, nat>) {
    forall f :: IsTestFile(f) ==> Sites(c, f) <= Allowed(baseline, f)
  }

  lemma StepKeeps(before: Commit, after: Commit, changed: seq<string>, baseline: map<string, nat>)
    requires Step(before, after, changed) && Within(before, baseline) && Shrunk(baseline, before.baseline)
    ensures Within(after, baseline) && Shrunk(baseline, after.baseline)
  {
    forall f | IsTestFile(f)
      ensures Sites(after, f) <= Allowed(baseline, f)
    {
      if Sites(after, f) > Sites(before, f) {
        var i :| 0 <= i < |changed| && changed[i] == f;
        var input := InputOf(before, after, changed);
        assert FileOk(input, input.changedFiles[i]);
      }
    }
  }

  /** From a start within its baseline, every run stays within that first
      baseline, whatever later baselines drop without their files changing. */
  lemma {:induction false} RunWithinBaseline(commits: seq<Commit>, changes: seq<seq<string>>)
    requires Run(commits, changes) && Within(commits[0], commits[0].baseline)
    ensures forall i :: 0 <= i < |commits| ==>
      Within(commits[i], commits[0].baseline) && Shrunk(commits[0].baseline, commits[i].baseline)
    decreases |commits|
  {
    hide Within, Step;
    assert Shrunk(commits[0].baseline, commits[0].baseline);
    if |changes| > 0 {
      var n := |changes| - 1;
      RunWithinBaseline(commits[..n + 1], changes[..n]);
      assert commits[..n + 1][n] == commits[n];
      StepKeeps(commits[n], commits[n + 1], changes[n], commits[0].baseline);
      forall i | 0 <= i < |commits|
        ensures Within(commits[i], commits[0].baseline) && Shrunk(commits[0].baseline, commits[i].baseline)
      {
        if i <= n {
          assert commits[..n + 1][i] == commits[i];
        }
      }
    }
  }

  /** The first baseline is the right bound: an accepted change can leave a file
      above the baseline it commits, by shrinking an entry of an untouched file. */
  lemma CurrentBaselineNotKept()
    ensures exists before: Commit, after: Commit ::
      Within(before, before.baseline) && Step(before, after, []) && !Within(after, after.baseline)
  {
    var f := "a.test.ts";
    var before := Commit(map[f := 1], map[f := 1]);
    var after := Commit(map[f := 1], map[]);
    assert IsTestFile(f);
    assert Sites(after, f) > Allowed(after.baseline, f);
    assert Within(before, before.baseline) && Step(before, after, []) && !Within(after, after.baseline);
  }

  /** After an accepted change the committed baseline bounds every test file
      exactly when it bounds those outside the changed files. */
  lemma CommittedBaselineIff(before: Commit, after: Commit, changed: seq<string>)
    requires Step(before, after, changed)
    ensures Within(after, after.baseline) <==>
      forall f :: IsTestFile(f) && f !in changed ==> Sites(after, f) <= Allowed(after.baseline, f)
  {
    var input := InputOf(before, after, changed);
    forall f | IsTestFile(f) && f in changed
      ensures Sites(after, f) <= Allowed(after.baseline, f)
    {
      var i :| 0 <= i < |changed| && changed[i] == f;
      assert FileOk(input, input.changedFiles[i]);
    }
  }

  /** Files outside the changed ones keep their counts. */
  ghost predicate Complete(before: Commit, after: Commit, changed: seq<string>) {
    forall f :: IsTestFile(f) && f !in changed ==> Sites(after, f) == Sites(before, f)
  }

  /** The change lowers the entry of an unchanged test file below its count. */
  ghost predicate CutsBelow(before: Commit, baseline: map<string, nat>, changed: seq<string>, f: string) {
    IsTestFile(f) && f !in changed
    && Allowed(baseline, f) < Sites(before, f) <= Allowed(before.baseline, f)
  }

  /** With a complete list of changed files, from a commit within its baseline:
      the new baseline is a bound exactly when no entry of an unchanged test
      file is cut below the count the file had before. */
  lemma CommittedBaselineKeptIff(before: Commit, after: Commit, changed: seq<string>)
    requires Step(before, after, changed) && Complete(before, after, changed) && Within(before, before.baseline)
    ensures Within(after, after.baseline) <==> forall f :: !CutsBelow(before, after.baseline, changed, f)
  {
    hide Step;
    CommittedBaselineIff(before, after, changed);
    if Within(after, after.baseline) {
      forall f
        ensures !CutsBelow(before, after.baseline, changed, f)
      {
      }
    } else {
      var f :| IsTestFile(f) && f !in changed && Sites(after, f) > Allowed(after.baseline, f);
      assert CutsBelow(before, after.baseline, changed, f);
    }
  }
}
