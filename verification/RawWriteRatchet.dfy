/** The raw-write ratchet of the invariants gate, and what every run of
    accepted changes keeps. */
module RawWriteRatchet {
  import opened Text
  import opened RawWriteAllowlist

  /** The tree under check. `allowlist` and `base` are the texts of the
      allowlist here and at the base branch, if there are any. */
  datatype Tree = Tree(
    allowlist: Option<string>, base: Option<string>,
    hasSrc: bool, hasGit: bool, enforce: bool,
    src: map<string, nat>, tests: map<string, nat>, present: string -> bool)

  function Quota(a: Allowlist, path: string): nat {
    if path in a.entries then a.entries[path] else 0
  }

  function Live(src: map<string, nat>, tests: map<string, nat>, path: string): nat {
    if path in src then src[path] else if path in tests then tests[path] else 0
  }

  // ---------------------------------------------------------------------
  // What acceptance means
  // ---------------------------------------------------------------------

  ghost predicate WithinQuota(a: Allowlist, counts: map<string, nat>) {
    forall p :: p in counts && counts[p] > 0 ==> p in a.entries && counts[p] <= a.entries[p]
  }

  ghost predicate NoDeadEntry(a: Allowlist, src: map<string, nat>, tests: map<string, nat>, present: string -> bool) {
    forall p :: p in a.entries ==>
      a.entries[p] > 0 && present(p) && if p in src then src[p] > 0 else p in tests && tests[p] > 0
  }

  /** Every new path or higher count carries its own approval. */
  ghost predicate GrowthApproved(base: Allowlist, head: Allowlist) {
    forall p :: p in head.entries && head.entries[p] > 0 && (p in base.entries ==> head.entries[p] > base.entries[p]) ==>
      p + ": " + Numeral(head.entries[p], 10) in head.markers
  }

  /** Everything but growth: nothing malformed, over quota or dead. */
  ghost predicate Consistent(a: Allowlist, src: map<string, nat>, tests: map<string, nat>, present: string -> bool) {
    a.malformed == [] && WithinQuota(a, src) && WithinQuota(a, tests) && NoDeadEntry(a, src, tests, present)
  }

  ghost predicate Accepted(t: Tree) {
    if t.allowlist.None? then !t.hasSrc || !t.hasGit
    else
      var a := Parse(t.allowlist.value);
      && Consistent(a, t.src, t.tests, t.present)
      && (t.hasGit && t.base.Some? && t.enforce ==> GrowthApproved(Parse(t.base.value), a))
  }

  // ---------------------------------------------------------------------
  // The check
  // ---------------------------------------------------------------------

  datatype Growth = Growth(path: string, baseCount: nat, headCount: nat)

  ghost predicate Grown(base: Allowlist, head: Allowlist, g: Growth) {
    && g.path in head.entries && g.headCount == head.entries[g.path]
    && g.baseCount == Quota(base, g.path) && g.headCount > g.baseCount
  }

  method DiffAllowlistGrowth(baseText: string, headText: string) returns (grown: seq<Growth>)
    ensures forall g :: g in grown <==> Grown(Parse(baseText), Parse(headText), g)
    ensures forall i, j :: 0 <= i < j < |grown| ==> grown[i].path != grown[j].path
  {
    hide Parse;
    var base := ParseRawWriteAllowlist(baseText);
    var head := ParseRawWriteAllowlist(headText);
    grown := [];
    var rest := head.entries.Keys;
    while rest != {}
      invariant rest <= head.entries.Keys
      invariant forall g :: g in grown <==> Grown(base, head, g) && g.path !in rest
      invariant forall i, j :: 0 <= i < j < |grown| ==> grown[i].path != grown[j].path
      decreases rest
    {
      var path :| path in rest;
      var g := Growth(path, if path in base.entries then base.entries[path] else 0, head.entries[path]);
      rest := rest - {path};
      assert forall i :: 0 <= i < |grown| ==> grown[i] in grown && grown[i].path != path;
      if g.headCount > 0 && g.headCount > g.baseCount {
        grown := grown + [g];
      }
    }
  }

  /** The raw sites beyond a file's quota, numbered within the file. */
  ghost function ExcessSites(a: Allowlist, counts: map<string, nat>): set<(string, nat)> {
    set p, k: nat | p in counts && Quota(a, p) < k <= counts[p] :: (p, k)
  }

  method OverQuota(a: Allowlist, counts: map<string, nat>) returns (violations: nat)
    ensures violations == |ExcessSites(a, counts)|
    ensures violations == 0 <==> WithinQuota(a, counts)
  {
    violations := 0;
    ghost var sites: set<(string, nat)> := {};
    var rest := counts.Keys;
    while rest != {}
      invariant rest <= counts.Keys && violations == |sites|
      invariant forall p, k: nat :: (p, k) in sites <==> p in counts && p !in rest && Quota(a, p) < k <= counts[p]
      decreases rest
    {
      var path :| path in rest;
      var allowed, live := Quota(a, path), counts[path];
      var site := allowed + 1;
      while site <= live
        invariant site > allowed && (site <= live + 1 || site == allowed + 1) && violations == |sites|
        invariant forall p, k: nat :: (p, k) in sites <==>
          (p in counts && p !in rest && Quota(a, p) < k <= counts[p]) || (p == path && allowed < k < site)
      {
        sites := sites + {(path, site)};
        violations := violations + 1;
        site := site + 1;
      }
      rest := rest - {path};
    }
    forall x: (string, nat)
      ensures x in sites <==> x in ExcessSites(a, counts)
    {
      assert x == (x.0, x.1);
    }
    assert sites == ExcessSites(a, counts);
    NoExcess(a, counts);
  }

  lemma NoExcess(a: Allowlist, counts: map<string, nat>)
    ensures ExcessSites(a, counts) == {} <==> WithinQuota(a, counts)
  {
    if p :| p in counts && counts[p] > Quota(a, p) {
      assert (p, counts[p]) in ExcessSites(a, counts);
    }
  }

  predicate IsDead(a: Allowlist, src: map<string, nat>, tests: map<string, nat>, present: string -> bool, p: string)
    requires p in a.entries
  {
    a.entries[p] == 0 || Live(src, tests, p) == 0 || !present(p)
  }

  ghost function DeadPaths(a: Allowlist, src: map<string, nat>, tests: map<string, nat>, present: string -> bool): set<string> {
    set p | p in a.entries && IsDead(a, src, tests, present, p)
  }

  method DeadEntries(a: Allowlist, src: map<string, nat>, tests: map<string, nat>, present: string -> bool)
    returns (violations: nat)
    ensures violations == |DeadPaths(a, src, tests, present)|
    ensures violations == 0 <==> NoDeadEntry(a, src, tests, present)
  {
    hide IsDead, NoDeadEntry;
    violations := 0;
    ghost var dead: set<string> := {};
    var rest := a.entries.Keys;
    while rest != {}
      invariant rest <= a.entries.Keys && violations == |dead|
      invariant forall p :: p in dead <==> p in a.entries && p !in rest && IsDead(a, src, tests, present, p)
      decreases rest
    {
      var path :| path in rest;
      rest := rest - {path};
      if IsDead(a, src, tests, present, path) {
        violations, dead := violations + 1, dead + {path};
      }
    }
    assert dead == DeadPaths(a, src, tests, present);
    NoneDead(a, src, tests, present);
  }

  lemma NoneDead(a: Allowlist, src: map<string, nat>, tests: map<string, nat>, present: string -> bool)
    ensures DeadPaths(a, src, tests, present) == {} <==> NoDeadEntry(a, src, tests, present)
  {
    if p :| p in a.entries && IsDead(a, src, tests, present, p) {
      assert p in DeadPaths(a, src, tests, present);
    }
  }

  /** The paths that grew without an approval of their own. */
  ghost function Unapproved(base: Allowlist, head: Allowlist): set<string> {
    set p | p in head.entries && head.entries[p] > Quota(base, p) && EntryText(p, head.entries[p]) !in head.markers
  }

  /** One of the first i grown entries has this path and no approval. */
  ghost predicate BadBefore(grown: seq<Growth>, i: nat, markers: set<string>, p: string)
    requires i <= |grown|
  {
    exists k :: 0 <= k < i && grown[k].path == p && EntryText(p, grown[k].headCount) !in markers
  }

  lemma BadStep(grown: seq<Growth>, i: nat, markers: set<string>, p: string)
    requires i < |grown| && forall k :: 0 <= k < i ==> grown[k].path != grown[i].path
    ensures BadBefore(grown, i + 1, markers, p) <==>
      BadBefore(grown, i, markers, p) || (grown[i].path == p && EntryText(p, grown[i].headCount) !in markers)
    ensures !BadBefore(grown, i, markers, grown[i].path)
  {
    hide EntryText;
  }

  method UnapprovedGrowth(baseText: string, headText: string) returns (violations: nat)
    ensures violations == |Unapproved(Parse(baseText), Parse(headText))|
    ensures violations == 0 <==> GrowthApproved(Parse(baseText), Parse(headText))
  {
    hide Parse, EntryText, Grown, Unapproved, GrowthApproved, BadBefore;
    var a := ParseRawWriteAllowlist(headText);
    var grown := DiffAllowlistGrowth(baseText, headText);
    ghost var base := Parse(baseText);
    violations := 0;
    ghost var bad: set<string> := {};
    NoneBad(grown, a.markers);
    for i := 0 to |grown|
      invariant violations == |bad|
      invariant forall p :: p in bad <==> BadBefore(grown, i, a.markers, p)
    {
      var g := grown[i];
      forall p
        ensures BadBefore(grown, i + 1, a.markers, p) <==>
          BadBefore(grown, i, a.markers, p) || (g.path == p && EntryText(p, g.headCount) !in a.markers)
      {
        BadStep(grown, i, a.markers, p);
      }
      BadStep(grown, i, a.markers, g.path);
      if EntryText(g.path, g.headCount) !in a.markers {
        violations, bad := violations + 1, bad + {g.path};
      }
    }
    BadIsUnapproved(base, a, grown, bad);
    NoneUnapproved(base, a);
  }

  lemma NoneBad(grown: seq<Growth>, markers: set<string>)
    ensures forall p :: !BadBefore(grown, 0, markers, p)
  {
  }

  lemma BadIsUnapproved(base: Allowlist, head: Allowlist, grown: seq<Growth>, bad: set<string>)
    requires forall g :: g in grown <==> Grown(base, head, g)
    requires forall p :: p in bad <==> BadBefore(grown, |grown|, head.markers, p)
    ensures bad == Unapproved(base, head)
  {
    hide EntryText;
    forall p
      ensures p in bad <==> p in Unapproved(base, head)
    {
      if p in bad {
        var k :| 0 <= k < |grown| && grown[k].path == p && EntryText(p, grown[k].headCount) !in head.markers;
        assert grown[k] in grown;
      }
      if p in Unapproved(base, head) {
        var g := Growth(p, Quota(base, p), head.entries[p]);
        assert Grown(base, head, g);
        var k :| 0 <= k < |grown| && grown[k] == g;
      }
    }
  }

  lemma NoneUnapproved(base: Allowlist, head: Allowlist)
    ensures Unapproved(base, head) == {} <==> GrowthApproved(base, head)
  {
    hide Numeral;
    if p :| p in head.entries && head.entries[p] > Quota(base, p) && EntryText(p, head.entries[p]) !in head.markers {
      assert p in Unapproved(base, head);
    }
  }

  /** One violation per malformed line, excess site, dead entry and, when the
      gate enforces, unapproved growth. */
  ghost function Violations(t: Tree): nat {
    if t.allowlist.None? then (if t.hasSrc && t.hasGit then 1 else 0)
    else
      var a := Parse(t.allowlist.value);
      |a.malformed| + |ExcessSites(a, t.src)| + |ExcessSites(a, t.tests)| + |DeadPaths(a, t.src, t.tests, t.present)|
      + if t.hasGit && t.base.Some? && t.enforce then |Unapproved(Parse(t.base.value), a)| else 0
  }

  method CheckRawWriteRatchet(t: Tree) returns (violations: nat)
    ensures violations == Violations(t)
    ensures violations == 0 <==> Accepted(t)
  {
    hide Parse, WithinQuota, NoDeadEntry, GrowthApproved, ExcessSites, DeadPaths, Unapproved;
    if t.allowlist.None? {
      return if !t.hasSrc || !t.hasGit then 0 else 1;
    }
    var headText := t.allowlist.value;
    var a := ParseRawWriteAllowlist(headText);
    violations := |a.malformed|;
    var overSrc := OverQuota(a, t.src);
    var overTests := OverQuota(a, t.tests);
    var dead := DeadEntries(a, t.src, t.tests, t.present);
    violations := violations + overSrc + overTests + dead;
    if t.hasGit && t.base.Some? {
      var unapproved := UnapprovedGrowth(t.base.value, headText);
      if t.enforce {
        violations := violations + unapproved;
      }
    }
  }

  /** A malformed line never passes. */
  lemma BrokenLineViolates(t: Tree, line: string)
    requires t.allowlist.Some? && IsBroken(line) && SomeLine(LinesOf(t.allowlist.value), line)
    ensures Violations(t) >= 1 && !Accepted(t)
  {
    hide Parse, IsBroken, SomeLine, LinesOf;
    ParseMeaning(t.allowlist.value, line, "", 0);
  }

  // ---------------------------------------------------------------------
  // Runs
  // ---------------------------------------------------------------------

  /** A change: the allowlist it commits and the scan of its tree. */
  datatype Change = Change(list: Allowlist, src: map<string, nat>, tests: map<string, nat>, present: string -> bool)

  ghost predicate Step(before: Allowlist, c: Change) {
    Consistent(c.list, c.src, c.tests, c.present) && GrowthApproved(before, c.list)
  }

  /** An enforced check of a git tree with an allowlist here and at the base
      accepts exactly the steps from the base's allowlist. */
  lemma EnforcedCheckIsStep(t: Tree)
    requires t.hasGit && t.enforce && t.base.Some? && t.allowlist.Some?
    ensures Accepted(t) <==>
      Step(Parse(t.base.value), Change(Parse(t.allowlist.value), t.src, t.tests, t.present))
  {
    hide Parse, Consistent, GrowthApproved;
  }

  ghost function Final(start: Allowlist, changes: seq<Change>): Allowlist {
    if changes == [] then start else changes[|changes| - 1].list
  }

  /** Each change starts from the allowlist that the one before it left. */
  ghost predicate Run(start: Allowlist, changes: seq<Change>) {
    changes == [] ||
    var init := changes[..|changes| - 1];
    Run(start, init) && Step(Final(start, init), changes[|changes| - 1])
  }

  /** Some change of the run approved count c for path p. */
  ghost predicate ApprovedIn(changes: seq<Change>, p: string, c: nat) {
    exists j :: 0 <= j < |changes| && EntryText(p, c) in changes[j].list.markers
  }

  /** A quota never exceeds both its initial value and every count approved for
      it along the run. */
  lemma {:induction false} QuotaBounded(start: Allowlist, changes: seq<Change>, p: string)
    requires Run(start, changes)
    ensures
      || Quota(Final(start, changes), p) <= Quota(start, p)
      || (exists c :: c >= Quota(Final(start, changes), p) && ApprovedIn(changes, p, c))
    decreases |changes|
  {
    hide Numeral, Consistent;
    if changes != [] {
      var n := |changes| - 1;
      var init := changes[..n];
      QuotaBounded(start, init, p);
      var before, after := Final(start, init), Final(start, changes);
      if Quota(after, p) > Quota(before, p) {
        assert EntryText(p, Quota(after, p)) in changes[n].list.markers;
        assert ApprovedIn(changes, p, Quota(after, p));
      } else if Quota(before, p) > Quota(start, p) {
        var c :| c >= Quota(before, p) && ApprovedIn(init, p, c);
        ApprovedLonger(changes, p, c);
      }
    }
  }

  lemma ApprovedLonger(changes: seq<Change>, p: string, c: nat)
    requires changes != [] && ApprovedIn(changes[..|changes| - 1], p, c)
    ensures ApprovedIn(changes, p, c)
  {
    hide EntryText;
    var init := changes[..|changes| - 1];
    var j :| 0 <= j < |init| && EntryText(p, c) in init[j].list.markers;
    assert changes[j] == init[j];
  }

  /** After any non-empty run of enforced changes, no file has more raw sites
      than its quota, and the quota has grown only by approval. */
  lemma RunSafe(start: Allowlist, changes: seq<Change>, p: string)
    requires Run(start, changes) && changes != []
    ensures var last := changes[|changes| - 1];
      && Live(last.src, last.tests, p) <= Quota(Final(start, changes), p)
      && (|| Quota(Final(start, changes), p) <= Quota(start, p)
          || exists c :: c >= Quota(Final(start, changes), p) && ApprovedIn(changes, p, c))
  {
    hide EntryText;
    QuotaBounded(start, changes, p);
  }

  /** Without approvals for a path, its quota and its live count never rise. */
  lemma NoApprovalNoGrowth(start: Allowlist, changes: seq<Change>, p: string)
    requires Run(start, changes) && changes != [] && forall c :: !ApprovedIn(changes, p, c)
    ensures Live(changes[|changes| - 1].src, changes[|changes| - 1].tests, p)
         <= Quota(Final(start, changes), p) <= Quota(start, p)
  {
    hide ApprovedIn;
    RunSafe(start, changes, p);
  }

  // ---------------------------------------------------------------------
  // Regeneration
  // ---------------------------------------------------------------------

  predicate Distinct(scan: Scan) {
    forall i, j :: 0 <= i < j < |scan| ==> scan[i].0 != scan[j].0
  }

  function ScanMap(scan: Scan): map<string, nat> {
    Counts(scan, map[])
  }

  lemma {:induction false} CountsAt(scan: Scan, m: map<string, nat>, k: nat)
    requires Distinct(scan) && k < |scan|
    ensures scan[k].0 in Counts(scan, m) && Counts(scan, m)[scan[k].0] == scan[k].1
    decreases |scan|
  {
    var m' := m[scan[0].0 := scan[0].1];
    if k == 0 {
      CountsElsewhere(scan[1..], m', scan[0].0);
    } else {
      CountsAt(scan[1..], m', k - 1);
    }
  }

  lemma {:induction false} CountsElsewhere(scan: Scan, m: map<string, nat>, p: string)
    requires forall i :: 0 <= i < |scan| ==> scan[i].0 != p
    ensures p in Counts(scan, m) <==> p in m
    ensures p in m ==> Counts(scan, m)[p] == m[p]
    decreases |scan|
  {
    if scan != [] {
      CountsElsewhere(scan[1..], m[scan[0].0 := scan[0].1], p);
    }
  }

  ghost predicate AllLive(scan: Scan, present: string -> bool) {
    forall i :: 0 <= i < |scan| ==> scan[i].1 > 0 && present(scan[i].0)
  }

  lemma SliceDistinct(both: Scan, shift: nat, arm: Scan)
    requires Distinct(both) && shift + |arm| <= |both| && both[shift..shift + |arm|] == arm
    ensures Distinct(arm)
  {
  }

  /** An arm keeps its counts in the merged scan. */
  lemma ArmInBoth(both: Scan, shift: nat, arm: Scan, p: string)
    requires Distinct(both) && shift + |arm| <= |both| && both[shift..shift + |arm|] == arm && p in ScanMap(arm)
    ensures p in ScanMap(both) && ScanMap(both)[p] == ScanMap(arm)[p]
  {
    hide Counts, Distinct;
    SliceDistinct(both, shift, arm);
    CountsKeys(arm, map[]);
    var i :| 0 <= i < |arm| && arm[i].0 == p;
    assert both[shift + i] == both[shift..shift + |arm|][i];
    CountsAt(arm, map[], i);
    CountsAt(both, map[], shift + i);
  }

  lemma BothFromArms(src: Scan, tests: Scan, present: string -> bool, p: string)
    requires Distinct(src + tests) && AllLive(src + tests, present) && p in ScanMap(src + tests)
    ensures present(p) && ScanMap(src + tests)[p] > 0 && (p in ScanMap(src) || p in ScanMap(tests))
  {
    var both := src + tests;
    CountsKeys(both, map[]);
    CountsKeys(src, map[]);
    CountsKeys(tests, map[]);
    var i :| 0 <= i < |both| && both[i].0 == p;
    CountsAt(both, map[], i);
    if i < |src| {
      assert src[i].0 == p;
    } else {
      assert tests[i - |src|].0 == p;
    }
  }

  /** Regenerating from a scan leaves nothing malformed, nothing over quota and
      no dead entry for that same scan. */
  lemma RegenerationClean(top: seq<string>, src: Scan, middle: seq<string>, tests: Scan, markers: set<string>,
                          present: string -> bool)
    requires AllInert(top) && AllInert(middle) && PathsOk(src) && PathsOk(tests)
    requires Distinct(src + tests) && AllLive(src + tests, present)
    ensures var a := Parse(Render(top, src, middle, tests, markers));
      Consistent(a, ScanMap(src), ScanMap(tests), present)
  {
    hide Parse, Render, AllInert, PathsOk, Distinct, AllLive, Counts, Approvals;
    RoundTrip(top, src, middle, tests, markers);
    CountsConcat(src, tests, map[]);
    forall p | p in ScanMap(src)
      ensures p in ScanMap(src + tests) && ScanMap(src + tests)[p] == ScanMap(src)[p]
    {
      assert (src + tests)[0..|src|] == src;
      ArmInBoth(src + tests, 0, src, p);
    }
    forall p | p in ScanMap(tests)
      ensures p in ScanMap(src + tests) && ScanMap(src + tests)[p] == ScanMap(tests)[p]
    {
      assert (src + tests)[|src|..|src| + |tests|] == tests;
      ArmInBoth(src + tests, |src|, tests, p);
    }
    forall p | p in ScanMap(src + tests)
      ensures present(p) && ScanMap(src + tests)[p] > 0 && (p in ScanMap(src) || p in ScanMap(tests))
    {
      BothFromArms(src, tests, present, p);
    }
  }

  lemma {:induction false} CountsConcat(a: Scan, b: Scan, m: map<string, nat>)
    ensures Counts(a + b, m) == Counts(b, Counts(a, m))
    decreases |a|
  {
    if a == [] {
      assert a + b == b;
    } else {
      assert (a + b)[1..] == a[1..] + b;
      CountsConcat(a[1..], b, m[a[0].0 := a[0].1]);
    }
  }
}
