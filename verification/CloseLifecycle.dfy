/** Coherence between the retention registry and the close command: what each
    row declares about an artifact must be what close really does with it. */
module CloseLifecycle {
  import opened Text

  datatype Membership = ArchiveAndClean | ArchiveOnly | CleanOnly | Neither

  /** What was read out of the close command. */
  datatype Facts = Facts(
    archive: seq<string>, clean: seq<string>, dispatch: seq<string>, handleClose: seq<string>,
    parseErrors: seq<string>)

  /** A registry row. `flatFiles` are the artifacts that its path grammar names. */
  datatype Row = Row(id: string, projectSwarm: bool, swarmGrammar: bool, flatFiles: seq<string>,
                     declared: map<string, Membership>)

  /** The lists that excuse artifacts and rows; `isSqlite` is the gate's suffix test. */
  datatype Policy = Policy(allowlist: seq<string>, indirectRows: seq<string>, exempt: set<string>, isSqlite: string -> bool)

  const ANCHOR := "swarm.db"

  /** What a membership says about the two arrays. */
  predicate Archives(m: Membership) {
    m in {ArchiveAndClean, ArchiveOnly}
  }

  predicate Cleans(m: Membership) {
    m in {ArchiveAndClean, CleanOnly}
  }

  ghost predicate Tells(m: Membership, file: string, facts: Facts) {
    (Archives(m) <==> file in facts.archive) && (Cleans(m) <==> file in facts.clean)
  }

  function MembershipOf(file: string, facts: Facts): (m: Membership)
    ensures Tells(m, file, facts)
  {
    if file in facts.archive && file in facts.clean then ArchiveAndClean
    else if file in facts.archive then ArchiveOnly
    else if file in facts.clean then CleanOnly
    else Neither
  }

  lemma TellsOne(file: string, facts: Facts)
    ensures forall m :: Tells(m, file, facts) <==> m == MembershipOf(file, facts)
  {
    forall m
      ensures Tells(m, file, facts) <==> m == MembershipOf(file, facts)
    {
      match m
      case ArchiveAndClean =>
      case ArchiveOnly =>
      case CleanOnly =>
      case Neither =>
    }
  }

  function Wired(facts: Facts): set<string> {
    (set f | f in facts.archive) + (set f | f in facts.clean)
  }

  /** The rows that declare the file, in registry order. */
  function Owners(rows: seq<Row>, file: string): seq<string> {
    if rows == [] then [] else
      Owners(rows[..|rows| - 1], file)
      + if file in rows[|rows| - 1].declared then [rows[|rows| - 1].id] else []
  }

  // ---------------------------------------------------------------------
  // The rules
  // ---------------------------------------------------------------------

  ghost predicate Anchored(facts: Facts) {
    facts.parseErrors == [] && facts.archive != [] && facts.clean != []
    && "swarm.db" in facts.dispatch && "swarm.db" in facts.handleClose
  }

  ghost predicate DeclarationOk(facts: Facts, policy: Policy, file: string, declared: Membership) {
    && (policy.isSqlite(file) && file !in policy.exempt ==> Archives(declared) && Cleans(declared))
    && Tells(declared, file, facts)
  }

  ghost predicate RowDeclarationsOk(facts: Facts, policy: Policy, row: Row) {
    forall f :: f in row.declared ==> DeclarationOk(facts, policy, f, row.declared[f])
  }

  ghost predicate RowCovers(policy: Policy, row: Row) {
    row.projectSwarm && row.id !in policy.indirectRows ==>
      row.swarmGrammar && forall f :: f in row.flatFiles ==> f in row.declared
  }

  ghost predicate WiredOk(facts: Facts, policy: Policy, rows: seq<Row>, file: string) {
    && (|Owners(rows, file)| == 1 || (Owners(rows, file) == [] && file in policy.allowlist))
    && (policy.isSqlite(file) ==>
          (file in facts.archive ==> file in facts.dispatch) && (file in facts.clean ==> file in facts.handleClose))
  }

  ghost predicate Coherent(rows: seq<Row>, facts: Facts, policy: Policy) {
    && Anchored(facts)
    && (forall i :: 0 <= i < |rows| ==> RowDeclarationsOk(facts, policy, rows[i]))
    && (forall i :: 0 <= i < |rows| ==> RowCovers(policy, rows[i]))
    && (forall f :: f in Wired(facts) ==> WiredOk(facts, policy, rows, f))
    && (forall f :: f in policy.allowlist ==> f in Wired(facts) && Owners(rows, f) == [])
    && (forall f :: f in policy.exempt ==> Owners(rows, f) != [])
  }

  // ---------------------------------------------------------------------
  // The errors
  // ---------------------------------------------------------------------

  /** An error, with what its message names. */
  datatype Issue =
    | Unparsed(message: string)
    | NoArchive
    | NoClean
    | AnchorNotDispatched
    | AnchorNotClosed
    | DatabaseLeft(row: Row, file: string)
    | Disagrees(row: Row, file: string, actual: Membership)
    | StrayGrammar(row: Row)
    | Undeclared(row: Row, file: string)
    | SeveralOwners(file: string, owners: seq<string>)
    | Unowned(file: string)
    | GapNotWired(file: string)
    | GapOwned(file: string)
    | ExemptionStale(file: string)
    | RawCopy(file: string)
    | HandleLeftOpen(file: string)

  predicate AnchorIssue(e: Issue) {
    e.Unparsed? || e.NoArchive? || e.NoClean? || e.AnchorNotDispatched? || e.AnchorNotClosed?
  }

  predicate DeclarationIssue(e: Issue) {
    e.DatabaseLeft? || e.Disagrees?
  }

  predicate CoverageIssue(e: Issue) {
    e.StrayGrammar? || e.Undeclared?
  }

  predicate WiredIssue(e: Issue) {
    e.SeveralOwners? || e.Unowned? || e.RawCopy? || e.HandleLeftOpen?
  }

  predicate ExcuseIssue(e: Issue) {
    e.GapNotWired? || e.GapOwned? || e.ExemptionStale?
  }

  /** When an error is true of the registry and of close. */
  ghost predicate Applies(e: Issue, rows: seq<Row>, facts: Facts, policy: Policy) {
    match e
    case Unparsed(message) => message in facts.parseErrors
    case NoArchive => facts.archive == []
    case NoClean => facts.clean == []
    case AnchorNotDispatched => "swarm.db" !in facts.dispatch
    case AnchorNotClosed => "swarm.db" !in facts.handleClose
    case DatabaseLeft(row, file) =>
      && row in rows && file in row.declared && row.declared[file] != ArchiveAndClean
      && policy.isSqlite(file) && file !in policy.exempt
    case Disagrees(row, file, actual) =>
      row in rows && file in row.declared && !Tells(row.declared[file], file, facts) && Tells(actual, file, facts)
    case StrayGrammar(row) =>
      row in rows && row.projectSwarm && row.id !in policy.indirectRows && !row.swarmGrammar
    case Undeclared(row, file) =>
      && row in rows && row.projectSwarm && row.id !in policy.indirectRows && row.swarmGrammar
      && file in row.flatFiles && file !in row.declared
    case SeveralOwners(file, owners) => file in Wired(facts) && owners == Owners(rows, file) && |owners| > 1
    case Unowned(file) => file in Wired(facts) && Owners(rows, file) == [] && file !in policy.allowlist
    case GapNotWired(file) => file in policy.allowlist && file !in Wired(facts)
    case GapOwned(file) => file in policy.allowlist && file in Wired(facts) && Owners(rows, file) != []
    case ExemptionStale(file) => file in policy.exempt && Owners(rows, file) == []
    case RawCopy(file) => policy.isSqlite(file) && file in facts.archive && file !in facts.dispatch
    case HandleLeftOpen(file) => policy.isSqlite(file) && file in facts.clean && file !in facts.handleClose
  }

  // ---------------------------------------------------------------------
  // The check
  // ---------------------------------------------------------------------

  function When(bad: bool, e: Issue): seq<Issue> {
    if bad then [e] else []
  }

  /** The errors of one declaration of a row. */
  function DeclarationIssues(row: Row, file: string, facts: Facts, policy: Policy): seq<Issue>
    requires file in row.declared
  {
    var declared, actual := row.declared[file], MembershipOf(file, facts);
    When(policy.isSqlite(file) && declared != ArchiveAndClean && file !in policy.exempt, DatabaseLeft(row, file))
    + When(declared != actual, Disagrees(row, file, actual))
  }

  lemma DeclarationIssuesApply(rows: seq<Row>, row: Row, file: string, facts: Facts, policy: Policy, e: Issue)
    requires row in rows && file in row.declared
    ensures e in DeclarationIssues(row, file, facts, policy) <==>
      DeclarationIssue(e) && e.row == row && e.file == file && Applies(e, rows, facts, policy)
  {
    hide Owners;
    TellsOne(file, facts);
  }

  lemma UndeclaredSilent(rows: seq<Row>, facts: Facts, policy: Policy)
    ensures forall e :: DeclarationIssue(e) && Applies(e, rows, facts, policy) ==> e.file in e.row.declared
  {
    hide Owners;
  }

  method CheckRow(rows: seq<Row>, row: Row, facts: Facts, policy: Policy, before: map<string, seq<string>>)
    returns (errors: seq<Issue>, declaredBy: map<string, seq<string>>)
    requires row in rows
    ensures forall e :: e in errors <==> DeclarationIssue(e) && e.row == row && Applies(e, rows, facts, policy)
    ensures declaredBy.Keys == before.Keys + row.declared.Keys
    ensures forall f :: f in declaredBy ==>
      declaredBy[f] == (if f in before then before[f] else []) + (if f in row.declared then [row.id] else [])
  {
    hide Applies, DeclarationIssues;
    errors, declaredBy := [], before;
    var rest := row.declared.Keys;
    UndeclaredSilent(rows, facts, policy);
    while rest != {}
      invariant rest <= row.declared.Keys
      invariant forall e :: e in errors <==>
        DeclarationIssue(e) && e.row == row && e.file !in rest && Applies(e, rows, facts, policy)
      invariant declaredBy.Keys == before.Keys + (row.declared.Keys - rest)
      invariant forall f :: f in declaredBy ==>
        declaredBy[f] == (if f in before then before[f] else []) + (if f in row.declared && f !in rest then [row.id] else [])
      decreases rest
    {
      var file :| file in rest;
      rest := rest - {file};
      var owners := if file in declaredBy then declaredBy[file] else [];
      declaredBy := declaredBy[file := owners + [row.id]];
      forall e {
        DeclarationIssuesApply(rows, row, file, facts, policy, e);
      }
      errors := errors + DeclarationIssues(row, file, facts, policy);
    }
  }

  method CheckCoverage(rows: seq<Row>, row: Row, facts: Facts, policy: Policy) returns (errors: seq<Issue>)
    requires row in rows
    ensures forall e :: e in errors <==> CoverageIssue(e) && e.row == row && Applies(e, rows, facts, policy)
  {
    if !row.projectSwarm || row.id in policy.indirectRows {
      return [];
    }
    if !row.swarmGrammar {
      return [StrayGrammar(row)];
    }
    errors := [];
    for i := 0 to |row.flatFiles|
      invariant forall e :: e in errors <==>
        e.Undeclared? && e.row == row && e.file in row.flatFiles[..i] && e.file !in row.declared
    {
      errors := errors + When(row.flatFiles[i] !in row.declared, Undeclared(row, row.flatFiles[i]));
    }
    assert row.flatFiles[..|row.flatFiles|] == row.flatFiles;
  }

  /** The errors of one artifact that close touches. */
  function WiredIssues(file: string, owners: seq<string>, facts: Facts, policy: Policy): seq<Issue> {
    When(|owners| > 1, SeveralOwners(file, owners))
    + When(|owners| == 0 && file !in policy.allowlist, Unowned(file))
    + When(policy.isSqlite(file) && file in facts.archive && file !in facts.dispatch, RawCopy(file))
    + When(policy.isSqlite(file) && file in facts.clean && file !in facts.handleClose, HandleLeftOpen(file))
  }

  lemma WiredIssuesApply(rows: seq<Row>, file: string, facts: Facts, policy: Policy, e: Issue)
    requires file in Wired(facts)
    ensures e in WiredIssues(file, Owners(rows, file), facts, policy) <==>
      WiredIssue(e) && e.file == file && Applies(e, rows, facts, policy)
  {
    hide Owners;
  }

  lemma UnwiredSilent(rows: seq<Row>, facts: Facts, policy: Policy)
    ensures forall e :: WiredIssue(e) && Applies(e, rows, facts, policy) ==> e.file in Wired(facts)
  {
    hide Owners;
  }

  method CheckWired(rows: seq<Row>, facts: Facts, policy: Policy, declaredBy: map<string, seq<string>>)
    returns (errors: seq<Issue>)
    requires forall f :: (if f in declaredBy then declaredBy[f] else []) == Owners(rows, f)
    ensures forall e :: e in errors <==> WiredIssue(e) && Applies(e, rows, facts, policy)
  {
    hide Owners, Applies, Wired, WiredIssues;
    errors := [];
    var rest := Wired(facts);
    UnwiredSilent(rows, facts, policy);
    while rest != {}
      invariant rest <= Wired(facts)
      invariant forall e :: e in errors <==> WiredIssue(e) && e.file !in rest && Applies(e, rows, facts, policy)
      decreases rest
    {
      var file :| file in rest;
      rest := rest - {file};
      var owners := if file in declaredBy then declaredBy[file] else [];
      assert owners == Owners(rows, file);
      forall e {
        WiredIssuesApply(rows, file, facts, policy, e);
      }
      errors := errors + WiredIssues(file, owners, facts, policy);
    }
  }

  method CheckExcuses(rows: seq<Row>, facts: Facts, policy: Policy, declaredBy: map<string, seq<string>>)
    returns (errors: seq<Issue>)
    requires forall f :: (if f in declaredBy then declaredBy[f] else []) == Owners(rows, f)
    ensures forall e :: e in errors <==> ExcuseIssue(e) && Applies(e, rows, facts, policy)
  {
    hide Owners, Wired;
    errors := [];
    for i := 0 to |policy.allowlist|
      invariant forall e :: e in errors <==>
        (e.GapNotWired? || e.GapOwned?) && e.file in policy.allowlist[..i] && Applies(e, rows, facts, policy)
    {
      var file := policy.allowlist[i];
      var owners := if file in declaredBy then declaredBy[file] else [];
      assert owners == Owners(rows, file);
      errors := errors
        + When(file !in Wired(facts), GapNotWired(file))
        + When(file in Wired(facts) && |owners| > 0, GapOwned(file));
    }
    assert policy.allowlist[..|policy.allowlist|] == policy.allowlist;
    var rest := policy.exempt;
    while rest != {}
      invariant rest <= policy.exempt
      invariant forall e :: e in errors <==>
        ExcuseIssue(e) && (e.ExemptionStale? ==> e.file !in rest) && Applies(e, rows, facts, policy)
      decreases rest
    {
      var file :| file in rest;
      rest := rest - {file};
      var owners := if file in declaredBy then declaredBy[file] else [];
      assert owners == Owners(rows, file);
      errors := errors + When(|owners| == 0, ExemptionStale(file));
    }
  }

  method CheckAnchors(rows: seq<Row>, facts: Facts, policy: Policy) returns (errors: seq<Issue>)
    ensures forall e :: e in errors <==> AnchorIssue(e) && Applies(e, rows, facts, policy)
  {
    errors := seq(|facts.parseErrors|, i requires 0 <= i < |facts.parseErrors| => Unparsed(facts.parseErrors[i]));
    assert forall i :: 0 <= i < |facts.parseErrors| ==> errors[i] == Unparsed(facts.parseErrors[i]);
    assert forall e :: e in errors <==> e.Unparsed? && e.message in facts.parseErrors;
    errors := errors
      + When(facts.archive == [], NoArchive)
      + When(facts.clean == [], NoClean)
      + When(ANCHOR !in facts.dispatch, AnchorNotDispatched)
      + When(ANCHOR !in facts.handleClose, AnchorNotClosed);
  }

  lemma RowKnown(rows: seq<Row>, facts: Facts, policy: Policy)
    ensures forall e :: (DeclarationIssue(e) || CoverageIssue(e)) && Applies(e, rows, facts, policy) ==> e.row in rows
  {
    hide Owners;
  }

  lemma OwnersStep(rows: seq<Row>, i: nat, f: string)
    requires i < |rows|
    ensures Owners(rows[..i + 1], f) == Owners(rows[..i], f) + if f in rows[i].declared then [rows[i].id] else []
  {
    assert rows[..i + 1][..i] == rows[..i];
  }

  method CheckDeclarations(rows: seq<Row>, facts: Facts, policy: Policy)
    returns (errors: seq<Issue>, declaredBy: map<string, seq<string>>)
    ensures forall e :: e in errors <==> DeclarationIssue(e) && Applies(e, rows, facts, policy)
    ensures forall f :: (if f in declaredBy then declaredBy[f] else []) == Owners(rows, f)
  {
    hide Applies;
    errors, declaredBy := [], map[];
    for i := 0 to |rows|
      invariant forall e :: e in errors <==>
        DeclarationIssue(e) && e.row in rows[..i] && Applies(e, rows, facts, policy)
      invariant forall f :: (if f in declaredBy then declaredBy[f] else []) == Owners(rows[..i], f)
    {
      hide Owners;
      var found;
      found, declaredBy := CheckRow(rows, rows[i], facts, policy, declaredBy);
      forall f
        ensures (if f in declaredBy then declaredBy[f] else []) == Owners(rows[..i + 1], f)
      {
        OwnersStep(rows, i, f);
      }
      errors := errors + found;
    }
    assert rows[..|rows|] == rows;
    RowKnown(rows, facts, policy);
  }

  method CheckAllCoverage(rows: seq<Row>, facts: Facts, policy: Policy) returns (errors: seq<Issue>)
    ensures forall e :: e in errors <==> CoverageIssue(e) && Applies(e, rows, facts, policy)
  {
    hide Applies;
    errors := [];
    for i := 0 to |rows|
      invariant forall e :: e in errors <==>
        CoverageIssue(e) && e.row in rows[..i] && Applies(e, rows, facts, policy)
    {
      var found := CheckCoverage(rows, rows[i], facts, policy);
      errors := errors + found;
    }
    assert rows[..|rows|] == rows;
    RowKnown(rows, facts, policy);
  }

  /** The gate reports every error that applies and no other, so it reports
      nothing exactly when registry and close are coherent. */
  method CollectErrors(rows: seq<Row>, facts: Facts, policy: Policy) returns (errors: seq<Issue>)
    ensures forall e :: e in errors <==> Applies(e, rows, facts, policy)
    ensures errors == [] <==> Coherent(rows, facts, policy)
  {
    hide Applies, Coherent, Owners;
    var anchors := CheckAnchors(rows, facts, policy);
    var declarations, declaredBy := CheckDeclarations(rows, facts, policy);
    var coverage := CheckAllCoverage(rows, facts, policy);
    var wired := CheckWired(rows, facts, policy, declaredBy);
    var excuses := CheckExcuses(rows, facts, policy, declaredBy);
    errors := anchors + declarations + coverage + wired + excuses;
    CoherentIff(rows, facts, policy);
    if errors != [] {
      assert errors[0] in errors;
    }
  }

  ghost predicate Clean(rows: seq<Row>, facts: Facts, policy: Policy) {
    forall e :: !Applies(e, rows, facts, policy)
  }

  lemma CoherentIff(rows: seq<Row>, facts: Facts, policy: Policy)
    ensures Coherent(rows, facts, policy) <==> Clean(rows, facts, policy)
  {
    hide Owners;
    if Coherent(rows, facts, policy) {
      forall e
        ensures !Applies(e, rows, facts, policy)
      {
        CoherentSilent(rows, facts, policy, e);
      }
    }
    if Clean(rows, facts, policy) {
      CleanAnchored(rows, facts, policy);
      CleanRows(rows, facts, policy);
      CleanWired(rows, facts, policy);
    }
  }

  lemma CoherentSilent(rows: seq<Row>, facts: Facts, policy: Policy, e: Issue)
    requires Coherent(rows, facts, policy)
    ensures !Applies(e, rows, facts, policy)
  {
    hide Owners;
    if (DeclarationIssue(e) || CoverageIssue(e)) && e.row in rows {
      var k :| 0 <= k < |rows| && rows[k] == e.row;
      assert RowDeclarationsOk(facts, policy, rows[k]) && RowCovers(policy, rows[k]);
    }
    if WiredIssue(e) && e.file in Wired(facts) {
      assert WiredOk(facts, policy, rows, e.file);
    }
  }

  lemma CleanAnchored(rows: seq<Row>, facts: Facts, policy: Policy)
    requires Clean(rows, facts, policy)
    ensures Anchored(facts)
  {
    hide Owners;
    assert facts.parseErrors == [] || facts.parseErrors[0] in facts.parseErrors;
    assert forall m :: m in facts.parseErrors ==> !Applies(Unparsed(m), rows, facts, policy);
    assert !Applies(NoArchive, rows, facts, policy) && !Applies(NoClean, rows, facts, policy);
    assert !Applies(AnchorNotDispatched, rows, facts, policy) && !Applies(AnchorNotClosed, rows, facts, policy);
  }

  lemma CleanRows(rows: seq<Row>, facts: Facts, policy: Policy)
    requires Clean(rows, facts, policy)
    ensures forall i :: 0 <= i < |rows| ==> RowDeclarationsOk(facts, policy, rows[i])
    ensures forall i :: 0 <= i < |rows| ==> RowCovers(policy, rows[i])
  {
    hide Owners;
    forall i | 0 <= i < |rows|
      ensures RowDeclarationsOk(facts, policy, rows[i]) && RowCovers(policy, rows[i])
    {
      var row := rows[i];
      forall f | f in row.declared
        ensures DeclarationOk(facts, policy, f, row.declared[f])
      {
        assert !Applies(DatabaseLeft(row, f), rows, facts, policy);
        assert !Applies(Disagrees(row, f, MembershipOf(f, facts)), rows, facts, policy);
      }
      assert !Applies(StrayGrammar(row), rows, facts, policy);
      assert forall f :: f in row.flatFiles ==> !Applies(Undeclared(row, f), rows, facts, policy);
    }
  }

  lemma CleanArtifact(rows: seq<Row>, facts: Facts, policy: Policy, f: string)
    requires Clean(rows, facts, policy) && f in Wired(facts)
    ensures WiredOk(facts, policy, rows, f)
  {
    hide Owners;
    assert !Applies(SeveralOwners(f, Owners(rows, f)), rows, facts, policy);
    assert !Applies(Unowned(f), rows, facts, policy);
    assert !Applies(RawCopy(f), rows, facts, policy);
    assert !Applies(HandleLeftOpen(f), rows, facts, policy);
  }

  lemma CleanWired(rows: seq<Row>, facts: Facts, policy: Policy)
    requires Clean(rows, facts, policy)
    ensures forall f :: f in Wired(facts) ==> WiredOk(facts, policy, rows, f)
    ensures forall f :: f in policy.allowlist ==> f in Wired(facts) && Owners(rows, f) == []
    ensures forall f :: f in policy.exempt ==> Owners(rows, f) != []
  {
    hide Owners, WiredOk;
    forall f | f in Wired(facts)
      ensures WiredOk(facts, policy, rows, f)
    {
      CleanArtifact(rows, facts, policy, f);
    }
    assert forall f :: f in policy.allowlist ==>
      !Applies(GapNotWired(f), rows, facts, policy) && !Applies(GapOwned(f), rows, facts, policy);
    assert forall f :: f in policy.exempt ==> !Applies(ExemptionStale(f), rows, facts, policy);
  }

  // ---------------------------------------------------------------------
  // What coherence means
  // ---------------------------------------------------------------------

  lemma {:induction false} OwnersExist(rows: seq<Row>, k: nat, file: string)
    requires k < |rows| && file in rows[k].declared
    ensures Owners(rows, file) != []
    decreases |rows|
  {
    if k < |rows| - 1 {
      assert rows[..|rows| - 1][k] == rows[k];
      OwnersExist(rows[..|rows| - 1], k, file);
    }
  }

  /** Row k declares the file and no other row does. */
  ghost predicate OnlyOwner(rows: seq<Row>, file: string, k: nat) {
    k < |rows| && forall j :: 0 <= j < |rows| ==> (file in rows[j].declared <==> j == k)
  }

  lemma {:induction false} SingleOwner(rows: seq<Row>, file: string)
    requires |Owners(rows, file)| == 1
    ensures exists k :: OnlyOwner(rows, file, k)
    decreases |rows|
  {
    var n := |rows| - 1;
    var init := rows[..n];
    if file in rows[n].declared {
      forall j | 0 <= j < n
        ensures file !in rows[j].declared
      {
        if file in rows[j].declared {
          assert init[j] == rows[j];
          OwnersExist(init, j, file);
        }
      }
      assert OnlyOwner(rows, file, n);
    } else {
      SingleOwner(init, file);
      var k :| OnlyOwner(init, file, k);
      assert forall j :: 0 <= j < n ==> init[j] == rows[j];
      assert OnlyOwner(rows, file, k);
    }
  }

  /** A declared database that is not exempt is archived from a snapshot and
      removed after its handle is closed. */
  lemma DatabasesAreClosed(rows: seq<Row>, facts: Facts, policy: Policy, k: nat, file: string)
    requires Coherent(rows, facts, policy) && k < |rows| && file in rows[k].declared
    requires policy.isSqlite(file) && file !in policy.exempt
    ensures file in facts.archive && file in facts.clean && file in facts.dispatch && file in facts.handleClose
  {
    hide Owners;
    assert RowDeclarationsOk(facts, policy, rows[k]);
    assert DeclarationOk(facts, policy, file, rows[k].declared[file]);
    assert file in Wired(facts);
  }

  /** Everything close touches is declared by exactly one row, or by none when
      it is on the list of known gaps. */
  lemma WiredIsOwned(rows: seq<Row>, facts: Facts, policy: Policy, file: string)
    requires Coherent(rows, facts, policy) && file in Wired(facts)
    ensures
      || (file in policy.allowlist && forall j :: 0 <= j < |rows| ==> file !in rows[j].declared)
      || (file !in policy.allowlist && exists k :: OnlyOwner(rows, file, k))
  {
    hide Owners;
    assert WiredOk(facts, policy, rows, file);
    if |Owners(rows, file)| == 1 {
      SingleOwner(rows, file);
    } else {
      forall j | 0 <= j < |rows|
        ensures file !in rows[j].declared
      {
        if file in rows[j].declared {
          OwnersExist(rows, j, file);
        }
      }
    }
  }
}
