/** Coverage accounting of the registry-citation gate: every citation found in
    the registry ends in exactly one of the buckets that the gate prints. */
module RegistryCitations {
  import opened Text

  datatype Range = Range(start: int, end: int)

  datatype Citation = Citation(path: Option<string>, continuation: bool, ranges: seq<Range>, identifier: Option<string>)

  /** One registry string: its row, its malformed shapes and its citations. */
  datatype Entry = Entry(rowId: string, malformed: seq<string>, citations: seq<Citation>)

  /** The source tree; `read` gives a file's lines, `mentions` says whether a
      line contains an identifier as a word. */
  datatype Tree = Tree(srcFiles: seq<string>, read: string -> Option<seq<string>>,
                       mentions: (string, string) -> bool, looksLikeIdentifier: string -> bool)

  // ---------------------------------------------------------------------
  // Path resolution
  // ---------------------------------------------------------------------

  datatype Resolution = Ok(file: string) | Ambiguous(candidates: seq<string>) | Missing

  function Filter(files: seq<string>, keep: string -> bool): (r: seq<string>)
    ensures forall f :: f in r <==> f in files && keep(f)
  {
    if files == [] then []
    else (if keep(files[0]) then [files[0]] else []) + Filter(files[1..], keep)
  }

  function Basename(f: string): string {
    f[LastIndexOf(f, '/') + 1..]
  }

  /** String.slice(0, lastIndexOf('/')), which drops one character when there is no slash. */
  function DirOf(f: string): string {
    var k := LastIndexOf(f, '/');
    if k >= 0 then f[..k] else if f == "" then "" else f[..|f| - 1]
  }

  function ByBasename(name: string, tree: Tree, rowPaths: set<string>): Resolution {
    var candidates := Filter(tree.srcFiles, f => Basename(f) == name);
    if |candidates| == 1 then Ok(candidates[0])
    else if candidates == [] then Missing
    else
      var inRow := Filter(candidates, f => f in rowPaths);
      if |inRow| == 1 then Ok(inRow[0]) else
        var rowDirs := set f | f in rowPaths :: DirOf(f);
        var inRowDir := Filter(candidates, f => DirOf(f) in rowDirs);
        if |inRowDir| == 1 then Ok(inRowDir[0]) else Ambiguous(candidates)
  }

  function Resolve(path: string, tree: Tree, rowPaths: set<string>): (r: Resolution) {
    if tree.read(path).Some? then Ok(path)
    else if !("src/" <= path) && tree.read("src/" + path).Some? then Ok("src/" + path)
    else if '/' in path then Missing
    else ByBasename(path, tree, rowPaths)
  }

  /** f stands at the only place of the list that passes the test. */
  ghost predicate Only(files: seq<string>, keep: string -> bool, f: string) {
    exists i :: 0 <= i < |files| && files[i] == f && keep(f) && forall j :: 0 <= j < |files| && keep(files[j]) ==> j == i
  }

  ghost predicate Nowhere(files: seq<string>, keep: string -> bool) {
    forall j :: 0 <= j < |files| ==> !keep(files[j])
  }

  ghost predicate HasOnly(files: seq<string>, keep: string -> bool) {
    exists f :: Only(files, keep, f)
  }

  lemma FilterNone(files: seq<string>, keep: string -> bool)
    ensures Filter(files, keep) == [] <==> Nowhere(files, keep)
  {
    var r := Filter(files, keep);
    if r == [] {
      forall j | 0 <= j < |files|
        ensures !keep(files[j])
      {
        assert files[j] in files && files[j] !in r;
      }
    } else {
      assert r[0] in r;
    }
  }

  lemma OnlyTail(files: seq<string>, keep: string -> bool, f: string)
    requires files != []
    ensures Only(files, keep, f) <==>
      if keep(files[0]) then files[0] == f && Nowhere(files[1..], keep) else Only(files[1..], keep, f)
  {
    var rest := files[1..];
    assert forall j :: 0 <= j < |rest| ==> rest[j] == files[j + 1];
    if i :| 0 <= i < |files| && files[i] == f && keep(f) && forall j :: 0 <= j < |files| && keep(files[j]) ==> j == i {
      if i > 0 {
        assert rest[i - 1] == f;
        assert !keep(files[0]);
        assert forall j :: 0 <= j < |rest| && keep(rest[j]) ==> j + 1 == i;
      }
    }
    if !keep(files[0]) {
      if i :| 0 <= i < |rest| && rest[i] == f && keep(f) && forall j :: 0 <= j < |rest| && keep(rest[j]) ==> j == i {
        OnlyShift(files, keep, f, i);
      }
    } else if files[0] == f && Nowhere(rest, keep) {
      assert forall j :: 0 < j < |files| ==> files[j] == rest[j - 1];
    }
  }

  lemma OnlyShift(files: seq<string>, keep: string -> bool, f: string, i: nat)
    requires files != [] && !keep(files[0]) && i < |files[1..]| && files[1..][i] == f && keep(f)
    requires forall j :: 0 <= j < |files[1..]| && keep(files[1..][j]) ==> j == i
    ensures Only(files, keep, f)
  {
    assert files[i + 1] == f;
    forall j | 0 <= j < |files| && keep(files[j])
      ensures j == i + 1
    {
      assert files[1..][j - 1] == files[j];
    }
  }

  /** Filtering leaves one file exactly when one place passes. */
  lemma {:induction false} FilterOnly(files: seq<string>, keep: string -> bool, f: string)
    ensures Filter(files, keep) == [f] <==> Only(files, keep, f)
  {
    if files != [] {
      OnlyTail(files, keep, f);
      FilterOnly(files[1..], keep, f);
      FilterNone(files[1..], keep);
      if keep(files[0]) {
        var rest := Filter(files[1..], keep);
        assert Filter(files, keep) == [files[0]] + rest;
        assert [files[0]] + rest == [f] <==> files[0] == f && rest == [];
      } else {
        assert Filter(files, keep) == Filter(files[1..], keep);
      }
    }
  }

  lemma FilterHasOnly(files: seq<string>, keep: string -> bool)
    ensures |Filter(files, keep)| == 1 <==> HasOnly(files, keep)
  {
    var r := Filter(files, keep);
    if |r| == 1 {
      assert r == [r[0]];
      FilterOnly(files, keep, r[0]);
    }
    if f :| Only(files, keep, f) {
      FilterOnly(files, keep, f);
    }
  }

  lemma {:induction false} FilterTwice(files: seq<string>, p: string -> bool, q: string -> bool, both: string -> bool)
    requires forall f :: both(f) <==> p(f) && q(f)
    ensures Filter(Filter(files, p), q) == Filter(files, both)
  {
    if files != [] {
      FilterTwice(files[1..], p, q, both);
      var rest := Filter(files[1..], p);
      if p(files[0]) {
        assert Filter(files, p) == [files[0]] + rest;
        assert ([files[0]] + rest)[1..] == rest;
      } else {
        assert Filter(files, p) == rest;
      }
    }
  }

  function Named(path: string): string -> bool {
    f => Basename(f) == path
  }

  function NamedInRow(path: string, rowPaths: set<string>): string -> bool {
    f => Basename(f) == path && f in rowPaths
  }

  function NamedInRowDir(path: string, rowPaths: set<string>): string -> bool {
    f => Basename(f) == path && exists g :: g in rowPaths && DirOf(g) == DirOf(f)
  }

  lemma ByBasenameLadder(path: string, tree: Tree, rowPaths: set<string>)
    ensures var files := tree.srcFiles;
      var named, inRow := Filter(files, Named(path)), Filter(files, NamedInRow(path, rowPaths));
      var inDir := Filter(files, NamedInRowDir(path, rowPaths));
      ByBasename(path, tree, rowPaths) ==
        if |named| == 1 then Ok(named[0])
        else if named == [] then Missing
        else if |inRow| == 1 then Ok(inRow[0])
        else if |inDir| == 1 then Ok(inDir[0]) else Ambiguous(named)
  {
    hide Basename, DirOf, Filter;
    var files := tree.srcFiles;
    var rowDirs := set f | f in rowPaths :: DirOf(f);
    var k1, k2, k3 := (f: string) => Basename(f) == path, (f: string) => f in rowPaths, (f: string) => DirOf(f) in rowDirs;
    FilterSame(files, k1, Named(path));
    FilterTwice(files, k1, k2, NamedInRow(path, rowPaths));
    FilterTwice(files, k1, k3, NamedInRowDir(path, rowPaths));
  }

  /** A bare name resolves to its only bearer; failing that to the only bearer
      that the row cites, and failing that to the only one in a cited directory. */
  lemma ByBasenameMeaning(path: string, tree: Tree, rowPaths: set<string>)
    ensures var r := ByBasename(path, tree, rowPaths);
      var files, named, inRow, inDir := tree.srcFiles, Named(path), NamedInRow(path, rowPaths), NamedInRowDir(path, rowPaths);
      && (r.Missing? <==> Nowhere(files, named))
      && (forall f :: r == Ok(f) <==>
            if HasOnly(files, named) || Nowhere(files, named) then Only(files, named, f)
            else if HasOnly(files, inRow) then Only(files, inRow, f)
            else Only(files, inDir, f))
      && (r.Ambiguous? <==>
            !Nowhere(files, named) && !HasOnly(files, named) && !HasOnly(files, inRow) && !HasOnly(files, inDir))
  {
    hide ByBasename, Filter, Only, HasOnly, Nowhere, Named, NamedInRow, NamedInRowDir;
    var files, named, inRow, inDir := tree.srcFiles, Named(path), NamedInRow(path, rowPaths), NamedInRowDir(path, rowPaths);
    ByBasenameLadder(path, tree, rowPaths);
    FilterNone(files, named);
    FilterHasOnly(files, named);
    FilterHasOnly(files, inRow);
    FilterHasOnly(files, inDir);
    forall f
      ensures Filter(files, named) == [f] <==> Only(files, named, f)
      ensures Filter(files, inRow) == [f] <==> Only(files, inRow, f)
      ensures Filter(files, inDir) == [f] <==> Only(files, inDir, f)
    {
      FilterOnly(files, named, f);
      FilterOnly(files, inRow, f);
      FilterOnly(files, inDir, f);
    }
    assert forall c: seq<string>, f :: c == [f] <==> |c| == 1 && c[0] == f;
  }

  lemma {:induction false} FilterSame(files: seq<string>, p: string -> bool, q: string -> bool)
    requires forall f :: p(f) <==> q(f)
    ensures Filter(files, p) == Filter(files, q)
  {
    if files != [] {
      FilterSame(files[1..], p, q);
    }
  }

  predicate Shorthand(path: string, tree: Tree) {
    !("src/" <= path) && tree.read("src/" + path).Some?
  }

  /** The ladder: verbatim, then under src/, then (without a slash) by name. */
  lemma ResolveMeaning(path: string, tree: Tree, rowPaths: set<string>)
    ensures var r := Resolve(path, tree, rowPaths);
      var files, named, inRow, inDir := tree.srcFiles, Named(path), NamedInRow(path, rowPaths), NamedInRowDir(path, rowPaths);
      && (r.Missing? <==> tree.read(path).None? && !Shorthand(path, tree) && ('/' in path || Nowhere(files, named)))
      && (forall f :: r == Ok(f) <==>
            if tree.read(path).Some? then f == path
            else if Shorthand(path, tree) then f == "src/" + path
            else '/' !in path &&
                 if HasOnly(files, named) || Nowhere(files, named) then Only(files, named, f)
                 else if HasOnly(files, inRow) then Only(files, inRow, f)
                 else Only(files, inDir, f))
      && (r.Ambiguous? <==>
            (tree.read(path).None? && !Shorthand(path, tree) && '/' !in path
             && !Nowhere(files, named) && !HasOnly(files, named) && !HasOnly(files, inRow) && !HasOnly(files, inDir)))
  {
    hide ByBasename, Only, HasOnly, Nowhere;
    ByBasenameMeaning(path, tree, rowPaths);
  }

  // ---------------------------------------------------------------------
  // Verdicts
  // ---------------------------------------------------------------------

  datatype Verdict =
    | NoPath | Unresolvable | AmbiguousPath | OutOfBounds
    | NoIdentifier | Lowercase | Passed | Absent | OutOfRange

  predicate RangeOk(r: Range, n: nat) {
    1 <= r.start <= r.end <= n
  }

  /** Some line of the range, counted from 1, mentions the identifier. */
  predicate MentionedIn(tree: Tree, id: string, lines: seq<string>, r: Range)
    requires RangeOk(r, |lines|)
  {
    exists n :: r.start - 1 <= n < r.end && tree.mentions(id, lines[n])
  }

  predicate InRange(tree: Tree, id: string, lines: seq<string>, ranges: seq<Range>)
    requires forall i :: 0 <= i < |ranges| ==> RangeOk(ranges[i], |lines|)
  {
    exists i :: 0 <= i < |ranges| && MentionedIn(tree, id, lines, ranges[i])
  }

  function LinesOf(tree: Tree, file: string): seq<string> {
    if tree.read(file).Some? then tree.read(file).value else []
  }

  function Anchor(tree: Tree, lines: seq<string>, c: Citation): Verdict
    requires forall i :: 0 <= i < |c.ranges| ==> RangeOk(c.ranges[i], |lines|)
  {
    if c.identifier.None? then NoIdentifier
    else if !tree.looksLikeIdentifier(c.identifier.value) then Lowercase
    else if InRange(tree, c.identifier.value, lines, c.ranges) then Passed
    else if exists n :: 0 <= n < |lines| && tree.mentions(c.identifier.value, lines[n]) then OutOfRange
    else Absent
  }

  function Judge(tree: Tree, rowPaths: set<string>, c: Citation): Verdict {
    if c.path.None? then NoPath else
      var r := Resolve(c.path.value, tree, rowPaths);
      if r.Missing? then Unresolvable
      else if r.Ambiguous? then AmbiguousPath
      else
        var lines := LinesOf(tree, r.file);
        if exists i :: 0 <= i < |c.ranges| && !RangeOk(c.ranges[i], |lines|) then OutOfBounds
        else Anchor(tree, lines, c)
  }

  /** The paths that a row cites explicitly, with a slash and a line. */
  function CitedIn(cs: seq<Citation>, tree: Tree): set<string> {
    set i | 0 <= i < |cs| && cs[i].path.Some? && !cs[i].continuation && '/' in cs[i].path.value
            && Resolve(cs[i].path.value, tree, {}).Ok? :: Resolve(cs[i].path.value, tree, {}).file
  }

  function RowPaths(entries: seq<Entry>, tree: Tree, rowId: string): set<string> {
    if entries == [] then {} else
      RowPaths(entries[..|entries| - 1], tree, rowId)
      + if entries[|entries| - 1].rowId == rowId then CitedIn(entries[|entries| - 1].citations, tree) else {}
  }

  /** The citation names the file explicitly, with a slash. */
  ghost predicate Names(tree: Tree, c: Citation, file: string) {
    c.path.Some? && !c.continuation && '/' in c.path.value && Resolve(c.path.value, tree, {}) == Ok(file)
  }

  ghost predicate CitedByRow(entries: seq<Entry>, tree: Tree, rowId: string, file: string) {
    exists k, c :: 0 <= k < |entries| && entries[k].rowId == rowId && c in entries[k].citations && Names(tree, c, file)
  }

  /** The files that break ties are those that some string of the row names. */
  lemma {:induction false} RowPathsMeaning(entries: seq<Entry>, tree: Tree, rowId: string, file: string)
    ensures file in RowPaths(entries, tree, rowId) <==> CitedByRow(entries, tree, rowId, file)
  {
    hide Names, CitedIn;
    if entries != [] {
      var n := |entries| - 1;
      RowPathsMeaning(entries[..n], tree, rowId, file);
      CitedInMeaning(entries[n].citations, tree, file);
      if k, c :| 0 <= k < |entries| && entries[k].rowId == rowId && c in entries[k].citations && Names(tree, c, file) {
        assert k < n ==> entries[..n][k] == entries[k];
      }
      if k, c :| 0 <= k < n && entries[..n][k].rowId == rowId && c in entries[..n][k].citations && Names(tree, c, file) {
        assert entries[k] == entries[..n][k];
      }
    }
  }

  lemma CitedInMeaning(cs: seq<Citation>, tree: Tree, file: string)
    ensures file in CitedIn(cs, tree) <==> exists c :: c in cs && Names(tree, c, file)
  {
    hide Resolve;
    if c :| c in cs && Names(tree, c, file) {
      var i :| 0 <= i < |cs| && cs[i] == c;
      assert Resolve(cs[i].path.value, tree, {}).file in CitedIn(cs, tree);
    }
    if file in CitedIn(cs, tree) {
      var i :| 0 <= i < |cs| && cs[i].path.Some? && !cs[i].continuation && '/' in cs[i].path.value
               && Resolve(cs[i].path.value, tree, {}).Ok? && file == Resolve(cs[i].path.value, tree, {}).file;
      assert Names(tree, cs[i], file);
    }
  }

  /** The last segment of a path, and what stands before its slash. */
  lemma BasenameMeaning(dir: string, name: string)
    requires '/' !in name
    ensures Basename(dir + "/" + name) == name && DirOf(dir + "/" + name) == dir
    ensures Basename(name) == name && (name != "" ==> DirOf(name) == name[..|name| - 1])
  {
    LastSlash(dir + "/", name);
    LastSlash("", name);
    assert "" + name == name;
    var f := dir + "/" + name;
    assert f[|dir| + 1..] == name && f[..|dir|] == dir;
  }

  lemma {:induction false} LastSlash(front: string, name: string)
    requires '/' !in name && (front == "" || front[|front| - 1] == '/')
    ensures LastIndexOf(front + name, '/') == |front| - 1
    decreases |name|
  {
    var f := front + name;
    if name == "" {
      assert f == front;
    } else {
      assert f[..|f| - 1] == front + name[..|name| - 1];
      assert f[|f| - 1] == name[|name| - 1] && name[|name| - 1] in name;
      LastSlash(front, name[..|name| - 1]);
    }
  }

  function JudgeAll(tree: Tree, rowPaths: set<string>, cs: seq<Citation>): (r: seq<Verdict>)
    ensures |r| == |cs|
  {
    seq(|cs|, i requires 0 <= i < |cs| => Judge(tree, rowPaths, cs[i]))
  }

  /** The verdicts of all citations of the first k registry strings. */
  function Verdicts(entries: seq<Entry>, tree: Tree, k: nat): seq<Verdict>
    requires k <= |entries|
  {
    if k == 0 then [] else
      Verdicts(entries, tree, k - 1)
      + JudgeAll(tree, RowPaths(entries, tree, entries[k - 1].rowId), entries[k - 1].citations)
  }

  function Tally(vs: seq<Verdict>, kinds: set<Verdict>): nat {
    if vs == [] then 0 else Tally(vs[..|vs| - 1], kinds) + if vs[|vs| - 1] in kinds then 1 else 0
  }

  // ---------------------------------------------------------------------
  // Counting
  // ---------------------------------------------------------------------

  /** The printed counters, with the number of citations rejected structurally
      and the length of the anchor-failure list. */
  datatype Coverage = Coverage(
    scanned: nat, continuationsUnresolvable: nat, checked: nat, noIdentifier: nat, candidates: nat,
    passed: nat, outOfRange: nat, skippedLowercase: nat, absent: nat,
    rejected: nat, anchorFailures: nat)

  const REJECTED := {Unresolvable, AmbiguousPath, OutOfBounds}
  const CANDIDATES := {Lowercase, Passed, Absent, OutOfRange}

  /** Every counter counts what its name says, over the same citations. */
  ghost predicate Counts(vs: seq<Verdict>, c: Coverage) {
    && c.scanned == |vs|
    && c.continuationsUnresolvable == Tally(vs, {NoPath})
    && c.checked == Tally(vs, {NoIdentifier} + CANDIDATES)
    && c.noIdentifier == Tally(vs, {NoIdentifier})
    && c.candidates == Tally(vs, CANDIDATES)
    && c.passed == Tally(vs, {Passed}) && c.outOfRange == Tally(vs, {OutOfRange})
    && c.skippedLowercase == Tally(vs, {Lowercase}) && c.absent == Tally(vs, {Absent})
    && c.rejected == Tally(vs, REJECTED) && c.anchorFailures == Tally(vs, {Absent, OutOfRange})
  }

  /** One citation, counted the way the gate counts it. */
  function Count(c: Coverage, v: Verdict): Coverage {
    var c := c.(scanned := c.scanned + 1);
    if v.NoPath? then c.(continuationsUnresolvable := c.continuationsUnresolvable + 1)
    else if v in REJECTED then c.(rejected := c.rejected + 1)
    else
      var c := c.(checked := c.checked + 1);
      if v.NoIdentifier? then c.(noIdentifier := c.noIdentifier + 1)
      else
        var c := c.(candidates := c.candidates + 1);
        if v.Lowercase? then c.(skippedLowercase := c.skippedLowercase + 1)
        else if v.Passed? then c.(passed := c.passed + 1)
        else if v.Absent? then c.(absent := c.absent + 1, anchorFailures := c.anchorFailures + 1)
        else c.(outOfRange := c.outOfRange + 1, anchorFailures := c.anchorFailures + 1)
  }

  lemma CountOne(vs: seq<Verdict>, c: Coverage, v: Verdict)
    requires Counts(vs, c)
    ensures Counts(vs + [v], Count(c, v))
  {
    assert (vs + [v])[..|vs|] == vs;
  }

  method CountEntry(tree: Tree, rowPaths: set<string>, cs: seq<Citation>, ghost before: seq<Verdict>, c: Coverage)
    returns (coverage: Coverage)
    requires Counts(before, c)
    ensures Counts(before + JudgeAll(tree, rowPaths, cs), coverage)
  {
    hide Judge, Counts;
    ghost var here := JudgeAll(tree, rowPaths, cs);
    coverage := c;
    assert before + here[..0] == before;
    for i := 0 to |cs|
      invariant Counts(before + here[..i], coverage)
    {
      var v := Judge(tree, rowPaths, cs[i]);
      assert before + here[..i + 1] == before + here[..i] + [v];
      CountOne(before + here[..i], coverage, v);
      coverage := Count(coverage, v);
    }
    assert here[..|cs|] == here;
  }

  // ---------------------------------------------------------------------
  // Findings
  // ---------------------------------------------------------------------

  /** A structural finding, with what its message names. */
  datatype Finding =
    | MalformedShape(rowId: string, raw: string)
    | PathMissing(rowId: string, citation: Citation)
    | PathAmbiguous(rowId: string, citation: Citation)
    | RangeOutside(rowId: string, citation: Citation, range: Range)

  datatype AnchorFailure = AnchorFailure(rowId: string, file: string, identifier: string, absent: bool)

  function Malformed(rowId: string, raws: seq<string>): (r: seq<Finding>)
    ensures |r| == |raws| && forall i :: 0 <= i < |r| ==> r[i] == MalformedShape(rowId, raws[i])
  {
    seq(|raws|, i requires 0 <= i < |raws| => MalformedShape(rowId, raws[i]))
  }

  function RangeFindings(rowId: string, c: Citation, ranges: seq<Range>, n: nat): seq<Finding> {
    if ranges == [] then [] else
      RangeFindings(rowId, c, ranges[..|ranges| - 1], n)
      + if RangeOk(ranges[|ranges| - 1], n) then [] else [RangeOutside(rowId, c, ranges[|ranges| - 1])]
  }

  /** The findings that one citation gives: one for a path that does not
      resolve, else one for every range outside the file. */
  function Structural(tree: Tree, rowPaths: set<string>, rowId: string, c: Citation): seq<Finding> {
    if c.path.None? then [] else
      match Resolve(c.path.value, tree, rowPaths)
      case Missing => [PathMissing(rowId, c)]
      case Ambiguous(_) => [PathAmbiguous(rowId, c)]
      case Ok(file) => RangeFindings(rowId, c, c.ranges, |LinesOf(tree, file)|)
  }

  function StructuralAll(tree: Tree, rowPaths: set<string>, rowId: string, cs: seq<Citation>): seq<Finding> {
    if cs == [] then []
    else StructuralAll(tree, rowPaths, rowId, cs[..|cs| - 1]) + Structural(tree, rowPaths, rowId, cs[|cs| - 1])
  }

  /** Those of the first k registry strings, malformed shapes included. */
  function StructuralUpTo(entries: seq<Entry>, tree: Tree, k: nat): seq<Finding>
    requires k <= |entries|
  {
    if k == 0 then [] else
      var e := entries[k - 1];
      StructuralUpTo(entries, tree, k - 1)
      + (Malformed(e.rowId, e.malformed) + StructuralAll(tree, RowPaths(entries, tree, e.rowId), e.rowId, e.citations))
  }

  function Failures(tree: Tree, rowPaths: set<string>, rowId: string, c: Citation): seq<AnchorFailure> {
    var v := Judge(tree, rowPaths, c);
    if v.Absent? || v.OutOfRange? then
      [AnchorFailure(rowId, Resolve(c.path.value, tree, rowPaths).file, c.identifier.value, v.Absent?)]
    else []
  }

  function FailuresAll(tree: Tree, rowPaths: set<string>, rowId: string, cs: seq<Citation>): seq<AnchorFailure> {
    if cs == [] then []
    else FailuresAll(tree, rowPaths, rowId, cs[..|cs| - 1]) + Failures(tree, rowPaths, rowId, cs[|cs| - 1])
  }

  function FailuresUpTo(entries: seq<Entry>, tree: Tree, k: nat): seq<AnchorFailure>
    requires k <= |entries|
  {
    if k == 0 then [] else
      var e := entries[k - 1];
      FailuresUpTo(entries, tree, k - 1) + FailuresAll(tree, RowPaths(entries, tree, e.rowId), e.rowId, e.citations)
  }

  method CollectStructural(tree: Tree, rowPaths: set<string>, rowId: string, cs: seq<Citation>)
    returns (structural: seq<Finding>)
    ensures structural == StructuralAll(tree, rowPaths, rowId, cs)
  {
    hide Resolve;
    structural := [];
    for i := 0 to |cs|
      invariant structural == StructuralAll(tree, rowPaths, rowId, cs[..i])
    {
      assert cs[..i + 1][..i] == cs[..i];
      var c := cs[i];
      if c.path.None? {
        continue;
      }
      var r := Resolve(c.path.value, tree, rowPaths);
      if r.Missing? {
        structural := structural + [PathMissing(rowId, c)];
        continue;
      }
      if r.Ambiguous? {
        structural := structural + [PathAmbiguous(rowId, c)];
        continue;
      }
      var found := CheckRanges(rowId, c, |LinesOf(tree, r.file)|);
      structural := structural + found;
    }
    assert cs[..|cs|] == cs;
  }

  method CheckRanges(rowId: string, c: Citation, n: nat) returns (found: seq<Finding>)
    ensures found == RangeFindings(rowId, c, c.ranges, n)
  {
    found := [];
    for j := 0 to |c.ranges|
      invariant found == RangeFindings(rowId, c, c.ranges[..j], n)
    {
      assert c.ranges[..j + 1][..j] == c.ranges[..j];
      if !RangeOk(c.ranges[j], n) {
        found := found + [RangeOutside(rowId, c, c.ranges[j])];
      }
    }
    assert c.ranges[..|c.ranges|] == c.ranges;
  }

  method CollectFailures(tree: Tree, rowPaths: set<string>, rowId: string, cs: seq<Citation>)
    returns (failures: seq<AnchorFailure>)
    ensures failures == FailuresAll(tree, rowPaths, rowId, cs)
  {
    hide Failures;
    failures := [];
    for i := 0 to |cs|
      invariant failures == FailuresAll(tree, rowPaths, rowId, cs[..i])
    {
      assert cs[..i + 1][..i] == cs[..i];
      failures := failures + Failures(tree, rowPaths, rowId, cs[i]);
    }
    assert cs[..|cs|] == cs;
  }

  method CollectFindings(entries: seq<Entry>, tree: Tree)
    returns (coverage: Coverage, structural: seq<Finding>, failures: seq<AnchorFailure>)
    ensures Counts(Verdicts(entries, tree, |entries|), coverage)
    ensures structural == StructuralUpTo(entries, tree, |entries|)
    ensures failures == FailuresUpTo(entries, tree, |entries|) && |failures| == coverage.anchorFailures
  {
    hide JudgeAll, Counts, RowPaths, StructuralAll, FailuresAll, Malformed, Tally;
    coverage, structural, failures := Coverage(0, 0, 0, 0, 0, 0, 0, 0, 0, 0, 0), [], [];
    CountNone();
    for k := 0 to |entries|
      invariant Counts(Verdicts(entries, tree, k), coverage)
      invariant structural == StructuralUpTo(entries, tree, k)
      invariant failures == FailuresUpTo(entries, tree, k)
    {
      var e := entries[k];
      var rowPaths := RowPaths(entries, tree, e.rowId);
      var found := CollectStructural(tree, rowPaths, e.rowId, e.citations);
      structural := structural + (Malformed(e.rowId, e.malformed) + found);
      var failed := CollectFailures(tree, rowPaths, e.rowId, e.citations);
      failures := failures + failed;
      coverage := CountEntry(tree, rowPaths, e.citations, Verdicts(entries, tree, k), coverage);
    }
    FailuresCount(entries, tree, |entries|);
    AnchorCounter(Verdicts(entries, tree, |entries|), coverage);
  }

  lemma CountNone()
    ensures Counts([], Coverage(0, 0, 0, 0, 0, 0, 0, 0, 0, 0, 0))
  {
  }

  lemma AnchorCounter(vs: seq<Verdict>, c: Coverage)
    requires Counts(vs, c)
    ensures c.anchorFailures == Tally(vs, FAILED)
  {
    hide Tally;
  }

  // ---------------------------------------------------------------------
  // What the findings say
  // ---------------------------------------------------------------------

  lemma {:induction false} RangeFindingsMeaning(rowId: string, c: Citation, ranges: seq<Range>, n: nat, f: Finding)
    ensures f in RangeFindings(rowId, c, ranges, n) <==>
      f.RangeOutside? && f.rowId == rowId && f.citation == c && f.range in ranges && !RangeOk(f.range, n)
  {
    if ranges != [] {
      var k := |ranges| - 1;
      RangeFindingsMeaning(rowId, c, ranges[..k], n, f);
      assert ranges == ranges[..k] + [ranges[k]];
    }
  }

  /** A citation deserves a finding. */
  ghost predicate Deserves(tree: Tree, rowPaths: set<string>, c: Citation, f: Finding) {
    match f
    case MalformedShape(_, _) => false
    case PathMissing(_, citation) =>
      citation == c && c.path.Some? && Resolve(c.path.value, tree, rowPaths) == Missing
    case PathAmbiguous(_, citation) =>
      citation == c && c.path.Some? && Resolve(c.path.value, tree, rowPaths).Ambiguous?
    case RangeOutside(_, citation, range) =>
      && citation == c && c.path.Some? && Resolve(c.path.value, tree, rowPaths).Ok? && range in c.ranges
      && !(1 <= range.start <= range.end <= |LinesOf(tree, Resolve(c.path.value, tree, rowPaths).file)|)
  }

  lemma StructuralMeaning(tree: Tree, rowPaths: set<string>, rowId: string, c: Citation, f: Finding)
    ensures f in Structural(tree, rowPaths, rowId, c) <==> f.rowId == rowId && Deserves(tree, rowPaths, c, f)
  {
    hide Resolve;
    if c.path.Some? && Resolve(c.path.value, tree, rowPaths).Ok? {
      RangeFindingsMeaning(rowId, c, c.ranges, |LinesOf(tree, Resolve(c.path.value, tree, rowPaths).file)|, f);
    }
  }

  ghost predicate SomeDeserves(tree: Tree, rowPaths: set<string>, cs: seq<Citation>, f: Finding) {
    exists i :: 0 <= i < |cs| && Deserves(tree, rowPaths, cs[i], f)
  }

  lemma {:induction false} StructuralAllMeaning(tree: Tree, rowPaths: set<string>, rowId: string, cs: seq<Citation>, f: Finding)
    ensures f in StructuralAll(tree, rowPaths, rowId, cs) <==> f.rowId == rowId && SomeDeserves(tree, rowPaths, cs, f)
  {
    hide Structural, Deserves;
    if cs != [] {
      var n := |cs| - 1;
      StructuralAllMeaning(tree, rowPaths, rowId, cs[..n], f);
      StructuralMeaning(tree, rowPaths, rowId, cs[n], f);
      if i :| 0 <= i < |cs| && Deserves(tree, rowPaths, cs[i], f) {
        assert i < n ==> cs[..n][i] == cs[i];
      }
      if i :| 0 <= i < n && Deserves(tree, rowPaths, cs[..n][i], f) {
        assert cs[i] == cs[..n][i];
      }
    }
  }

  /** The finding belongs to registry string k. */
  ghost predicate FindingAt(entries: seq<Entry>, tree: Tree, k: nat, f: Finding)
    requires k < |entries|
  {
    var e := entries[k];
    f.rowId == e.rowId &&
    if f.MalformedShape? then f.raw in e.malformed
    else SomeDeserves(tree, RowPaths(entries, tree, e.rowId), e.citations, f)
  }

  /** A finding is reported exactly when some registry string deserves it. */
  lemma {:induction false} FindingsMeaning(entries: seq<Entry>, tree: Tree, n: nat, f: Finding)
    requires n <= |entries|
    ensures f in StructuralUpTo(entries, tree, n) <==> exists k :: 0 <= k < n && FindingAt(entries, tree, k, f)
  {
    hide StructuralAll, RowPaths, Deserves, SomeDeserves;
    if n > 0 {
      var e := entries[n - 1];
      var rowPaths := RowPaths(entries, tree, e.rowId);
      FindingsMeaning(entries, tree, n - 1, f);
      StructuralAllMeaning(tree, rowPaths, e.rowId, e.citations, f);
      NoMalformedDeserved(tree, rowPaths, e.citations, f);
      MalformedMeaning(e.rowId, e.malformed, f);
      var before := StructuralUpTo(entries, tree, n - 1);
      var here := Malformed(e.rowId, e.malformed) + StructuralAll(tree, rowPaths, e.rowId, e.citations);
      assert f in here <==> FindingAt(entries, tree, n - 1, f);
      assert StructuralUpTo(entries, tree, n) == before + here;
    }
  }

  lemma MalformedMeaning(rowId: string, raws: seq<string>, f: Finding)
    ensures f in Malformed(rowId, raws) <==> f.MalformedShape? && f.rowId == rowId && f.raw in raws
  {
    if f.MalformedShape? && f.rowId == rowId && f.raw in raws {
      var i :| 0 <= i < |raws| && raws[i] == f.raw;
      assert Malformed(rowId, raws)[i] == f;
    }
  }

  lemma NoMalformedDeserved(tree: Tree, rowPaths: set<string>, cs: seq<Citation>, f: Finding)
    ensures SomeDeserves(tree, rowPaths, cs, f) ==> !f.MalformedShape?
  {
    hide Resolve;
  }

  /** The citation resolves to the file, its ranges lie inside, and it has an
      identifier that can be checked. */
  ghost predicate Checkable(tree: Tree, rowPaths: set<string>, c: Citation, file: string, identifier: string) {
    && c.path.Some? && Resolve(c.path.value, tree, rowPaths) == Ok(file)
    && (forall g :: g in c.ranges ==> 1 <= g.start <= g.end <= |LinesOf(tree, file)|)
    && c.identifier == Some(identifier) && tree.looksLikeIdentifier(identifier)
  }

  /** Line n of the file, counted from 1, mentions the identifier. */
  ghost predicate MentionedAt(tree: Tree, file: string, identifier: string, n: int) {
    1 <= n <= |LinesOf(tree, file)| && tree.mentions(identifier, LinesOf(tree, file)[n - 1])
  }

  ghost predicate Cited(c: Citation, n: int) {
    exists i :: 0 <= i < |c.ranges| && c.ranges[i].start <= n <= c.ranges[i].end
  }

  ghost predicate MentionedWhereCited(tree: Tree, c: Citation, file: string, identifier: string) {
    exists n :: Cited(c, n) && MentionedAt(tree, file, identifier, n)
  }

  ghost predicate MentionedAnywhere(tree: Tree, file: string, identifier: string) {
    exists n :: MentionedAt(tree, file, identifier, n)
  }

  lemma InRangeMeaning(tree: Tree, c: Citation, file: string, identifier: string)
    requires forall i :: 0 <= i < |c.ranges| ==> RangeOk(c.ranges[i], |LinesOf(tree, file)|)
    ensures InRange(tree, identifier, LinesOf(tree, file), c.ranges) <==> MentionedWhereCited(tree, c, file, identifier)
    ensures (exists n :: 0 <= n < |LinesOf(tree, file)| && tree.mentions(identifier, LinesOf(tree, file)[n]))
      <==> MentionedAnywhere(tree, file, identifier)
  {
    var lines := LinesOf(tree, file);
    hide LinesOf;
    if i :| 0 <= i < |c.ranges| && MentionedIn(tree, identifier, lines, c.ranges[i]) {
      var n :| c.ranges[i].start - 1 <= n < c.ranges[i].end && tree.mentions(identifier, lines[n]);
      assert Cited(c, n + 1) && MentionedAt(tree, file, identifier, n + 1);
    }
    if n :| Cited(c, n) && MentionedAt(tree, file, identifier, n) {
      var i :| 0 <= i < |c.ranges| && c.ranges[i].start <= n <= c.ranges[i].end;
      assert tree.mentions(identifier, lines[n - 1]);
      assert MentionedIn(tree, identifier, lines, c.ranges[i]);
    }
    if n :| 0 <= n < |lines| && tree.mentions(identifier, lines[n]) {
      assert MentionedAt(tree, file, identifier, n + 1);
    }
  }

  /** The anchor verdicts: passed exactly when a cited line mentions the
      identifier, out of range exactly when only other lines do, absent exactly
      when none does. */
  lemma AnchorMeaning(tree: Tree, rowPaths: set<string>, c: Citation, file: string, identifier: string)
    requires Checkable(tree, rowPaths, c, file, identifier)
    ensures Judge(tree, rowPaths, c) == Passed <==> MentionedWhereCited(tree, c, file, identifier)
    ensures Judge(tree, rowPaths, c) == OutOfRange <==>
      !MentionedWhereCited(tree, c, file, identifier) && MentionedAnywhere(tree, file, identifier)
    ensures Judge(tree, rowPaths, c) == Absent <==> !MentionedAnywhere(tree, file, identifier)
  {
    hide Resolve, InRange, MentionedWhereCited, MentionedAnywhere, LinesOf;
    assert forall i :: 0 <= i < |c.ranges| ==> c.ranges[i] in c.ranges;
    InRangeMeaning(tree, c, file, identifier);
    CitedIsAnywhere(tree, c, file, identifier);
  }

  lemma CitedIsAnywhere(tree: Tree, c: Citation, file: string, identifier: string)
    ensures MentionedWhereCited(tree, c, file, identifier) ==> MentionedAnywhere(tree, file, identifier)
  {
  }

  /** Only checkable citations get an anchor verdict; the others are judged by
      what is missing. */
  lemma NotCheckable(tree: Tree, rowPaths: set<string>, c: Citation)
    ensures Judge(tree, rowPaths, c) in {Passed, OutOfRange, Absent} <==>
      exists file, identifier :: Checkable(tree, rowPaths, c, file, identifier)
    ensures Judge(tree, rowPaths, c) == NoPath <==> c.path.None?
    ensures Judge(tree, rowPaths, c) == Unresolvable <==> c.path.Some? && Resolve(c.path.value, tree, rowPaths).Missing?
    ensures Judge(tree, rowPaths, c) == AmbiguousPath <==> c.path.Some? && Resolve(c.path.value, tree, rowPaths).Ambiguous?
    ensures Judge(tree, rowPaths, c) == OutOfBounds <==>
      && c.path.Some? && Resolve(c.path.value, tree, rowPaths).Ok?
      && exists g :: g in c.ranges && !(1 <= g.start <= g.end <= |LinesOf(tree, Resolve(c.path.value, tree, rowPaths).file)|)
    ensures Judge(tree, rowPaths, c) == NoIdentifier <==> InBounds(tree, rowPaths, c) && c.identifier.None?
    ensures Judge(tree, rowPaths, c) == Lowercase <==>
      InBounds(tree, rowPaths, c) && c.identifier.Some? && !tree.looksLikeIdentifier(c.identifier.value)
  {
    hide Resolve, InRange, LinesOf;
    if c.path.Some? && Resolve(c.path.value, tree, rowPaths).Ok? {
      var file := Resolve(c.path.value, tree, rowPaths).file;
      assert forall i :: 0 <= i < |c.ranges| ==> c.ranges[i] in c.ranges;
      if Judge(tree, rowPaths, c) in {Passed, OutOfRange, Absent} {
        assert Checkable(tree, rowPaths, c, file, c.identifier.value);
      }
    }
  }

  ghost predicate InBounds(tree: Tree, rowPaths: set<string>, c: Citation) {
    && c.path.Some? && Resolve(c.path.value, tree, rowPaths).Ok?
    && forall g :: g in c.ranges ==> 1 <= g.start <= g.end <= |LinesOf(tree, Resolve(c.path.value, tree, rowPaths).file)|
  }

  /** The citation fails its anchor check in this way. */
  ghost predicate Fails(tree: Tree, rowPaths: set<string>, c: Citation, a: AnchorFailure) {
    && Checkable(tree, rowPaths, c, a.file, a.identifier) && !MentionedWhereCited(tree, c, a.file, a.identifier)
    && (a.absent <==> !MentionedAnywhere(tree, a.file, a.identifier))
  }

  lemma FailuresMeaning(tree: Tree, rowPaths: set<string>, rowId: string, c: Citation, a: AnchorFailure)
    ensures a in Failures(tree, rowPaths, rowId, c) <==> a.rowId == rowId && Fails(tree, rowPaths, c, a)
  {
    hide Resolve, Judge, MentionedWhereCited, MentionedAnywhere, LinesOf;
    NotCheckable(tree, rowPaths, c);
    if file, identifier :| Checkable(tree, rowPaths, c, file, identifier) {
      AnchorMeaning(tree, rowPaths, c, file, identifier);
      CitedIsAnywhere(tree, c, file, identifier);
      assert Failures(tree, rowPaths, rowId, c) ==
        if MentionedWhereCited(tree, c, file, identifier) then []
        else [AnchorFailure(rowId, file, identifier, !MentionedAnywhere(tree, file, identifier))];
    }
  }

  ghost predicate SomeFails(tree: Tree, rowPaths: set<string>, cs: seq<Citation>, a: AnchorFailure) {
    exists i :: 0 <= i < |cs| && Fails(tree, rowPaths, cs[i], a)
  }

  lemma {:induction false} FailuresAllMeaning(tree: Tree, rowPaths: set<string>, rowId: string, cs: seq<Citation>,
                                              a: AnchorFailure)
    ensures a in FailuresAll(tree, rowPaths, rowId, cs) <==> a.rowId == rowId && SomeFails(tree, rowPaths, cs, a)
  {
    hide Failures, Fails;
    if cs != [] {
      var n := |cs| - 1;
      FailuresAllMeaning(tree, rowPaths, rowId, cs[..n], a);
      FailuresMeaning(tree, rowPaths, rowId, cs[n], a);
      if i :| 0 <= i < |cs| && Fails(tree, rowPaths, cs[i], a) {
        assert i < n ==> cs[..n][i] == cs[i];
      }
      if i :| 0 <= i < n && Fails(tree, rowPaths, cs[..n][i], a) {
        assert cs[i] == cs[..n][i];
      }
    }
  }

  ghost predicate FailureAt(entries: seq<Entry>, tree: Tree, k: nat, a: AnchorFailure)
    requires k < |entries|
  {
    a.rowId == entries[k].rowId && SomeFails(tree, RowPaths(entries, tree, a.rowId), entries[k].citations, a)
  }

  /** An anchor failure is listed exactly when some citation fails that way. */
  lemma {:induction false} AnchorFailuresMeaning(entries: seq<Entry>, tree: Tree, n: nat, a: AnchorFailure)
    requires n <= |entries|
    ensures a in FailuresUpTo(entries, tree, n) <==> exists k :: 0 <= k < n && FailureAt(entries, tree, k, a)
  {
    hide FailuresAll, RowPaths, SomeFails;
    if n > 0 {
      var e := entries[n - 1];
      var rowPaths := RowPaths(entries, tree, e.rowId);
      AnchorFailuresMeaning(entries, tree, n - 1, a);
      FailuresAllMeaning(tree, rowPaths, e.rowId, e.citations, a);
      var before, here := FailuresUpTo(entries, tree, n - 1), FailuresAll(tree, rowPaths, e.rowId, e.citations);
      assert a in here <==> FailureAt(entries, tree, n - 1, a);
      assert FailuresUpTo(entries, tree, n) == before + here;
    }
  }

  lemma {:induction false} RangeFindingsNone(rowId: string, c: Citation, ranges: seq<Range>, n: nat)
    ensures RangeFindings(rowId, c, ranges, n) == [] <==> forall i :: 0 <= i < |ranges| ==> RangeOk(ranges[i], n)
  {
    if ranges != [] {
      RangeFindingsNone(rowId, c, ranges[..|ranges| - 1], n);
    }
  }

  /** A citation gives a structural finding exactly when it is rejected. */
  lemma StructuralIsRejection(tree: Tree, rowPaths: set<string>, rowId: string, c: Citation)
    ensures Structural(tree, rowPaths, rowId, c) != [] <==> Judge(tree, rowPaths, c) in REJECTED
  {
    hide Resolve, InRange;
    if c.path.Some? && Resolve(c.path.value, tree, rowPaths).Ok? {
      RangeFindingsNone(rowId, c, c.ranges, |LinesOf(tree, Resolve(c.path.value, tree, rowPaths).file)|);
    }
  }

  /** There are no structural findings exactly when nothing is malformed and no
      citation is rejected. */
  lemma {:induction false} StructuralNone(entries: seq<Entry>, tree: Tree, k: nat)
    requires k <= |entries|
    ensures StructuralUpTo(entries, tree, k) == [] <==>
      Tally(Verdicts(entries, tree, k), REJECTED) == 0 && forall i :: 0 <= i < k ==> entries[i].malformed == []
  {
    hide RowPaths, JudgeAll, StructuralAll;
    if k > 0 {
      StructuralNone(entries, tree, k - 1);
      var e := entries[k - 1];
      var rowPaths := RowPaths(entries, tree, e.rowId);
      StructuralAllNone(tree, rowPaths, e.rowId, e.citations);
      TallyConcat(Verdicts(entries, tree, k - 1), JudgeAll(tree, rowPaths, e.citations), REJECTED);
    }
  }

  lemma {:induction false} StructuralAllNone(tree: Tree, rowPaths: set<string>, rowId: string, cs: seq<Citation>)
    ensures StructuralAll(tree, rowPaths, rowId, cs) == [] <==> Tally(JudgeAll(tree, rowPaths, cs), REJECTED) == 0
  {
    hide Structural, Judge;
    if cs != [] {
      var n := |cs| - 1;
      StructuralAllNone(tree, rowPaths, rowId, cs[..n]);
      StructuralIsRejection(tree, rowPaths, rowId, cs[n]);
      assert JudgeAll(tree, rowPaths, cs)[..n] == JudgeAll(tree, rowPaths, cs[..n]);
    }
  }

  const FAILED := {Absent, OutOfRange}

  lemma {:induction false} FailuresAllCount(tree: Tree, rowPaths: set<string>, rowId: string, cs: seq<Citation>)
    ensures |FailuresAll(tree, rowPaths, rowId, cs)| == Tally(JudgeAll(tree, rowPaths, cs), FAILED)
  {
    hide Judge;
    if cs != [] {
      var n := |cs| - 1;
      FailuresAllCount(tree, rowPaths, rowId, cs[..n]);
      assert JudgeAll(tree, rowPaths, cs)[..n] == JudgeAll(tree, rowPaths, cs[..n]);
    }
  }

  /** The list of anchor failures is as long as its counter says. */
  lemma {:induction false} FailuresCount(entries: seq<Entry>, tree: Tree, k: nat)
    requires k <= |entries|
    ensures |FailuresUpTo(entries, tree, k)| == Tally(Verdicts(entries, tree, k), FAILED)
  {
    hide RowPaths, JudgeAll, FailuresAll, Tally;
    if k == 0 {
      TallyNone(FAILED);
    } else {
      var e := entries[k - 1];
      var rowPaths := RowPaths(entries, tree, e.rowId);
      FailuresCount(entries, tree, k - 1);
      FailuresAllCount(tree, rowPaths, e.rowId, e.citations);
      TallyConcat(Verdicts(entries, tree, k - 1), JudgeAll(tree, rowPaths, e.citations), FAILED);
    }
  }

  lemma TallyNone(kinds: set<Verdict>)
    ensures Tally([], kinds) == 0
  {
  }

  lemma {:induction false} TallyConcat(a: seq<Verdict>, b: seq<Verdict>, kinds: set<Verdict>)
    ensures Tally(a + b, kinds) == Tally(a, kinds) + Tally(b, kinds)
    decreases |b|
  {
    if b == [] {
      assert a + b == a;
    } else {
      assert (a + b)[..|a + b| - 1] == a + b[..|b| - 1];
      TallyConcat(a, b[..|b| - 1], kinds);
    }
  }

  // ---------------------------------------------------------------------
  // Conservation
  // ---------------------------------------------------------------------

  lemma {:induction false} TallyDisjoint(vs: seq<Verdict>, a: set<Verdict>, b: set<Verdict>)
    requires a !! b
    ensures Tally(vs, a + b) == Tally(vs, a) + Tally(vs, b)
  {
    if vs != [] {
      TallyDisjoint(vs[..|vs| - 1], a, b);
    }
  }

  lemma {:induction false} TallyAll(vs: seq<Verdict>, all: set<Verdict>)
    requires forall i :: 0 <= i < |vs| ==> vs[i] in all
    ensures Tally(vs, all) == |vs|
  {
    if vs != [] {
      assert vs[|vs| - 1] in all;
      TallyAll(vs[..|vs| - 1], all);
    }
  }

  /** No citation is lost or counted twice. */
  lemma Conservation(vs: seq<Verdict>, c: Coverage)
    requires Counts(vs, c)
    ensures c.scanned == c.continuationsUnresolvable + c.rejected + c.checked
    ensures c.checked == c.noIdentifier + c.candidates
    ensures c.candidates == c.passed + c.outOfRange + c.skippedLowercase + c.absent
    ensures c.anchorFailures == c.outOfRange + c.absent
  {
    hide Tally;
    var checked := {NoIdentifier} + CANDIDATES;
    forall i | 0 <= i < |vs|
      ensures vs[i] in {NoPath} + REJECTED + checked
    {
      assert vs[i].NoPath? || vs[i].Unresolvable? || vs[i].AmbiguousPath? || vs[i].OutOfBounds? || vs[i].NoIdentifier?
        || vs[i].Lowercase? || vs[i].Passed? || vs[i].Absent? || vs[i].OutOfRange?;
    }
    TallyAll(vs, {NoPath} + REJECTED + checked);
    TallyDisjoint(vs, {NoPath} + REJECTED, checked);
    TallyDisjoint(vs, {NoPath}, REJECTED);
    TallyDisjoint(vs, {NoIdentifier}, CANDIDATES);
    assert CANDIDATES == {Lowercase} + ({Passed} + {Absent, OutOfRange});
    TallyDisjoint(vs, {Lowercase}, {Passed} + {Absent, OutOfRange});
    TallyDisjoint(vs, {Passed}, {Absent, OutOfRange});
    assert {Absent, OutOfRange} == {Absent} + {OutOfRange};
    TallyDisjoint(vs, {Absent}, {OutOfRange});
  }
}
