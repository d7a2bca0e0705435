# Gate scripts of opencode-swarm, modelled and proved in Dafny

opencode-swarm guards its repository with CI gate scripts. Several of them hold
real algorithms: a tar reader, lexers, a unified-diff reader, fixpoint and graph
searches, shrink-only ratchets, and checkers that must fail closed. This project
models those algorithms and proves what they promise for all inputs and, for the
ratchets, for all runs. `dafny verify dfyconfig.toml` checks everything.

| files | gate script | content |
|---|---|---|
| `Tar.dfy`, `PaxHeader.dfy`, `TarArchive.dfy`, `TarFormat.dfy`, `TarNames.dfy` | `scripts/check-host-contract-v2.ts` | the in-memory tar reader, its safety on every input, the round trip with an archive writer, and when the reader keeps to the format, for the "ustar Interchange Format" and "pax Extended Header" formats of IEEE Std 1003.1 |
| `SourceLexer.dfy`, `SourceScanner.dfy`, `SourcePieces.dfy`, `SourceMasks.dfy`, `CitationPath.dfy` | `scripts/check-config-consumption.ts` | the pushdown masking scanner against a recursive reference lexer, and both against sources written as trees of pieces; canonical citation paths |
| `Propagation.dfy`, `Syntax.dfy`, `ResolveAliases.dfy`, `AliasMeaning.dfy`, `RootTaint.dfy`, `TaintMeaning.dfy` | `scripts/check-path-identity.ts` | the alias and taint fixpoint loops as least closed sets, and what these say about the syntax tree |
| `TimeoutSearch.dfy`, `RawWriteAllowlist.dfy`, `RawWriteRatchet.dfy` | `scripts/check-invariants.ts` | the timeout search over cyclic bindings; the raw-write allowlist, its round trip and its runs |
| `ShellWalk.dfy` | `scripts/check-bash-portability.ts` | the bounded directory walk |
| `CommentStripper.dfy` | `scripts/check-core-events-usage.ts` | the six-state comment stripper |
| `DiffReader.dfy` | `scripts/check-test-tmpdir.ts` | the zero-context diff reader |
| `VacuousRatchet.dfy` | `scripts/check-vacuous-assertions.ts` | the baseline ratchet and its runs |
| `WorkflowJobs.dfy`, `WorkflowBudgets.dfy`, `WaitMeaning.dfy`, `WaitOwners.dfy` | `scripts/check-workflow-timeouts.ts` | job blocks, call sites, the budget arithmetic and whose budget a call is given |
| `RegistryCitations.dfy` | `scripts/check-registry-citations.ts` | coverage accounting |
| `CloseLifecycle.dfy` | `scripts/check-retention-registry.ts` | close-lifecycle coherence |
| `Text.dfy` | all | optional values, trimming, splitting, numerals |

Loops of the source are methods with loops, and each is proved equal to a
specification function or to the property itself. Values the scripts get from
the platform are parameters: the UTF-8 text decoder of the tar reader, the
directory listing, `lstat` and `realpath` of the walk, the outcomes of the
regular expressions that classify YAML lines and call sites, the name patterns
of the path-identity gate, the syntax tree, the counts of a source scan and the
texts that `git` returns. Strings are sequences of Unicode scalar values.

## What turned out different from the documentation

* `scanSource` keeps the newlines of masked literals and template text, except
  that a backslash before a newline in template text blanks that newline in
  `masked` (`scripts/check-config-consumption.ts`, lines 162-167).
  `SourceScanner.NewlinesKept` says exactly which newlines each mask keeps;
  `SourceScanner.EscapedNewlineLost` is a concrete source.
* The diff reader drops a carriage return at the end of an added line, and takes
  an added line that starts with `++ ` for a file header.
  `DiffReader.ReadsEditScript` gives the exact condition;
  `DiffReader.CarriageReturnLost` and `DiffReader.PlusesLost` are concrete diffs.
* `paxPath` reads a pax header line by line, although a pax record is delimited
  by its length and its value may hold newlines. So a path is cut at its first
  newline, and a path line inside another record's value is taken for a path.
  The first path comes back if and only if it has no newline and no other path
  line stands before it (`PaxHeader.PaxNewline`, for every header);
  `PaxHeader.CommentGivesPath` and `PaxHeader.CommentHidesPath` are concrete
  headers.
* `paxPath` takes the first `path` of a header where the pax format lets the last
  one win. `PaxHeader.PaxLastWinsIff` says for every header when the two agree;
  `PaxHeader.PaxFirstTaken` is a concrete header.
* A pending long name or pax path waits for the next regular file even when a
  directory or link record comes between; in the format it names the next file
  of any type. `TarArchive.Meaning` follows the code and `TarFormat.Intended` the
  format. `TarFormat.DirectoryPathLeaks` is a concrete archive, down to its
  bytes, whose file is stored under a directory's path.
  `TarFormat.FilesAgreeIff` says for every archive when reader and format agree
  on the files and their names, `TarFormat.OneOverrideExact` says it for the
  returned map of one override, and `TarFormat.MeaningIsIntended` covers every
  archive without a stray override.
* The workflow-timeout gate looks a wait function up by its name alone. Every call
  is given the budget of the function it invokes if and only if functions of one
  name have the same defaults (`WaitOwners.BudgetsAreOwnIff`);
  `WaitOwners.NameTwiceHidesWait` is a concrete file that the gate accepts
  although a job waits ten times longer than it may run.
* A committed vacuous-assertion baseline is not itself an upper bound after
  every accepted change (`VacuousRatchet.CurrentBaselineNotKept`). It is one
  exactly when it bounds the files outside the changed ones
  (`VacuousRatchet.CommittedBaselineIff`), which for complete lists of changed
  files means that no entry of an unchanged file is cut below its count
  (`VacuousRatchet.CommittedBaselineKeptIff`). The first baseline of a run is
  always a bound (`VacuousRatchet.RunWithinBaseline`).

## Model

| member | source | states |
|---|---|---|
| Tar.HeaderCStr | scripts/check-host-contract-v2.ts:297-303 | a header field reads as its bytes up to the first NUL or the field's end |
| Tar.ReadFields | scripts/check-host-contract-v2.ts:335-340 | name, octal size, type and prefix of a block; refused exactly when the size is not a non-negative octal number |
| Tar.OctalMeaning | scripts/check-host-contract-v2.ts:336-338 | a size reads as a number if and only if it is a sign or none and octal digits, whatever follows them |
| Tar.ParseTar | scripts/check-host-contract-v2.ts:323-364 | the loop returns what the members met by the walk store, in order, or nothing when the walk refuses; every index is in bounds and each turn advances by at least one block |
| Tar.WalkSafe | scripts/check-host-contract-v2.ts:333-361 | on every byte input the members are slices of the archive within the per-file cap, ordered and a header apart, and together with their headers no longer than the archive |
| Tar.StoredSlice | scripts/check-host-contract-v2.ts:356 | every returned file is one of those slices, under that slice's name |
| Tar.FindPaxPath | scripts/check-host-contract-v2.ts:306-316 | the search returns the value of the first path line, which is one line |
| PaxHeader.PaxLineIff | scripts/check-host-contract-v2.ts:309-314 | a line gives a path if and only if it is a length, a blank, `path=` and that path |
| PaxHeader.PaxPathTaken | scripts/check-host-contract-v2.ts:306-316 | what is taken of every pax header, newlines in keys and values included: the first path line inside a record before the first path, or else that path up to a newline |
| PaxHeader.PaxNewline | scripts/check-host-contract-v2.ts:306-316 | the first path of a header is given back if and only if it has no newline and no other path line stands before it |
| PaxHeader.PaxLastWinsIff | scripts/check-host-contract-v2.ts:309-314 | when the last path is taken, as the format asks, for every header |
| PaxHeader.PaxPathFinds | scripts/check-host-contract-v2.ts:306-316 | a newline-free path behind records without a path line decides, whatever follows |
| PaxHeader.PaxFirstTaken | scripts/check-host-contract-v2.ts:309-314 | a concrete header of which the earlier of two paths is taken |
| PaxHeader.CommentGivesPath | scripts/check-host-contract-v2.ts:308-314 | a concrete header without any path of which one is taken |
| PaxHeader.CommentHidesPath | scripts/check-host-contract-v2.ts:308-314 | a concrete header whose newline-free path is not given back |
| TarArchive.HeaderRoundTrip | scripts/check-host-contract-v2.ts:335-340 | a written header reads back as its name, size, type and prefix, whatever the other header bytes |
| TarArchive.StepOnRecord | scripts/check-host-contract-v2.ts:333-361 | one written record is consumed whole, with its padding, and has the effect its type calls for |
| TarArchive.RecordsOutcome | scripts/check-host-contract-v2.ts:323-364 | every list of well-formed records is read as what it means, including refusals and overrides that wait across other records |
| TarArchive.OverrideName | scripts/check-host-contract-v2.ts:345-355 | an override decoded from its payload names the file that follows |
| TarArchive.RoundTrip | scripts/check-host-contract-v2.ts:318-364 | reading back any member list gives exactly its files, leading `./` dropped; an override with records between it and its file is applied by the reader's own rule |
| TarArchive.LastWins | scripts/check-host-contract-v2.ts:356 | of several members with one path the last is the one returned |
| TarArchive.MemberPathMeaning | scripts/check-host-contract-v2.ts:357 | the stored name of a member given `./p` is `p`, and any other name is stored as it is |
| TarArchive.FoundUnder | scripts/check-host-contract-v2.ts:351-358 | the last member given the name `./p`, or `p` itself, is found under `p` |
| TarFormat.DirectoryPathLeaks | scripts/check-host-contract-v2.ts:348-358 | a concrete archive, as bytes and for every decoder that reads ASCII, whose file is stored under the pax path of a directory |
| TarFormat.MeaningIsIntended | scripts/check-host-contract-v2.ts:346-360 | every archive in which no override waits at a directory, link or device is read as the format means it |
| TarFormat.OneOverrideExact | scripts/check-host-contract-v2.ts:346-360 | one override is applied as the format means it if and only if no other file stands between it and the file, or it changes nothing |
| TarFormat.StoredInOrder | scripts/check-host-contract-v2.ts:346-360 | the reader's and the format's meaning both store the archive's files in order and differ in their names only |
| TarFormat.FilesAgreeIff | scripts/check-host-contract-v2.ts:346-360 | for every archive the two agree on all files and names if and only if every file reached across another that used the override up has that name anyway |
| TarFormat.RoundTripIntended | scripts/check-host-contract-v2.ts:318-364 | where no other file stands between an override and its file, reading back an archive gives what the format means |
| TarNames.LongNameMeaning | scripts/check-host-contract-v2.ts:346-347 | the pending long name is that of the last `L` record since the last file |
| TarNames.PathMeaning | scripts/check-host-contract-v2.ts:348-350 | the pending pax path is that of the last pax header with a path since the last file |
| TarNames.NameMeaning | scripts/check-host-contract-v2.ts:353-357 | a file is stored under its long name, or else its pax path, or else its prefix and name, without one leading `./` |
| TarNames.ArchiveMeaning | scripts/check-host-contract-v2.ts:323-364 | of every archive's bytes, the records that are files come back in order under these names, or nothing at all if one is too large |
| TarNames.FilesListed | scripts/check-host-contract-v2.ts:351-358 | which records are files: those of type `0`, NUL and `7` |
| TarNames.StepMeaning | scripts/check-host-contract-v2.ts:332-345 | one turn on any bytes: when it ends, when it refuses (no proper size, cut short, a file too large), where it goes on |
| TarNames.RefusedIff | scripts/check-host-contract-v2.ts:332-345 | any byte input is refused if and only if the reader runs into something unreadable before the end |
| SourceScanner.ScanSource | scripts/check-config-consumption.ts:82-183 | the one-pass scanner with its stack computes the two masks of the recursive reference lexer, for every source and key |
| SourceScanner.AdvanceResumes | scripts/check-config-consumption.ts:99-181 | one turn of the loop produces the reference classes of what it consumes and leaves the stack as the continuation |
| SourceScanner.AdvanceAlternates | scripts/check-config-consumption.ts:139-177 | template and interpolation frames alternate and an open interpolation has at least one brace to close |
| SourceScanner.ScanLexeme | scripts/check-config-consumption.ts:104-138 | comments, literals and plain characters in code are painted as the reference classifies them and nothing else changes |
| SourceScanner.KeyDifference | scripts/check-config-consumption.ts:363-369 | scanning with a key and without differ at exactly the visible characters of literals whose whole content is the key |
| SourceScanner.MaskedSurvivors | scripts/check-config-consumption.ts:82-183 | what survives in `masked` survives in `noComment` as itself |
| SourceScanner.NewlinesKept | scripts/check-config-consumption.ts:82-183 | which newlines each mask keeps, as an if-and-only-if |
| SourceScanner.EscapedNewlineLost | scripts/check-config-consumption.ts:162-167 | a newline outside every comment that `masked` loses |
| SourceLexer.LexSound | scripts/check-config-consumption.ts:104-138 | line comments hold no newline; literals open with a quote and stop at that quote, a newline or the end |
| SourcePieces.LexPieces | scripts/check-config-consumption.ts:99-181 | a source written as a tree of plain characters, comments, quoted literals with their escapes, templates and nested interpolations is classified as the tree says |
| SourcePieces.EverySource | scripts/check-config-consumption.ts:99-181 | every source is such a tree |
| SourceMasks.MaskedPieces | scripts/check-config-consumption.ts:82-183 | both masks of such a tree, piece by piece: what is blank, what keeps its newlines and what stays |
| SourceMasks.EverySourceMasked | scripts/check-config-consumption.ts:82-183 | every source is masked as its tree says |
| CitationPath.Canonicalize | scripts/check-config-consumption.ts:237-252 | the loop computes the canonical path |
| CitationPath.RefusedIffClimbs | scripts/check-config-consumption.ts:242-248 | a path is refused if and only if some prefix climbs above the root |
| CitationPath.ResolveSurvivors | scripts/check-config-consumption.ts:240-251 | the result is what a right-to-left reading leaves when each `..` cancels the nearest name before it |
| CitationPath.CanonicalFixedPoint | scripts/check-config-consumption.ts:237-252 | a canonical path has only proper segments and is its own canonical form |
| CitationPath.CanonicalMeaning | scripts/check-config-consumption.ts:237-252 | a path written with slashes and backslashes in any mix is refused if and only if it climbs above the root, and otherwise becomes its surviving names |
| CitationPath.EveryPathIsWritten | scripts/check-config-consumption.ts:238 | every path is so written |
| Propagation.SweepStaysInside | scripts/check-path-identity.ts:133-179 | an in-place pass never leaves a closed set that contains its start |
| Propagation.StableIsClosed | scripts/check-path-identity.ts:427-431 | a pass that adds nothing leaves a set closed under every rule |
| Propagation.OrderIrrelevant | scripts/check-path-identity.ts:133-134 | the least closed set does not depend on the order in which the rules are met |
| ResolveAliases.AliasScan.Visit | scripts/check-path-identity.ts:142-177 | one in-place traversal fires the file's alias rules in order and records whether anything changed |
| ResolveAliases.ImportsResolve | scripts/check-path-identity.ts:89-181 | the loop terminates with the least set that holds the imported names and is closed under the aliases |
| ResolveAliases.ChainsExact | scripts/check-path-identity.ts:133-180 | a name is in it if and only if a chain of aliases links it to an import |
| AliasMeaning.SeedsMeaning | scripts/check-path-identity.ts:98-131 | which names the imports give, import by import |
| AliasMeaning.EdgesMeaning | scripts/check-path-identity.ts:142-177 | the aliases are exactly the declarations, destructurings and assignments below the file that rename something |
| AliasMeaning.ImportsResolveMeaning | scripts/check-path-identity.ts:89-181 | the names found are exactly those that an import gives or that rename a found name, and no smaller set has all of these |
| RootTaint.RootKeyMonotone | scripts/check-path-identity.ts:284-316 | more tainted keys never make an expression less of a root key |
| RootTaint.TaintScan.Collect | scripts/check-path-identity.ts:409-426 | one in-place traversal of a scope fires its taint rules in order and stays out of nested functions |
| RootTaint.TaintScan.CollectObject | scripts/check-path-identity.ts:389-408 | object literals taint dotted keys, nested ones included |
| RootTaint.ScopeTaint | scripts/check-path-identity.ts:372-431 | the loop terminates with the least set of keys closed under the scope's rules |
| RootTaint.RootKeyLinear | scripts/check-path-identity.ts:284-316 | an expression is a root key by itself or because of one tainted key that flows into it |
| RootTaint.TaintChainsExact | scripts/check-path-identity.ts:372-431 | a key is tainted if and only if a chain of flows leads to it from a raw root |
| RootTaint.TaintOrderIrrelevant | scripts/check-path-identity.ts:427-431 | scopes with the same rules taint the same keys, so use before assignment does not matter |
| RootTaint.StatementOrderIrrelevant | scripts/check-path-identity.ts:409-431 | the statements of a function or file may be reordered or repeated without effect |
| RootTaint.NestedOrderIrrelevant | scripts/check-path-identity.ts:409-431 | so may the statements of a block nested anywhere in the scope |
| Syntax.ChildrenMeaning | scripts/check-path-identity.ts:425 | the traversal visits exactly the direct parts of a node |
| TaintMeaning.RootKeyMeaning | scripts/check-path-identity.ts:284-316 | an expression is a root key if and only if its value may be that of a tainted access path or of a raw path.resolve of a root, through wrappers, branches and path transforms |
| TaintMeaning.TaintsMeaning | scripts/check-path-identity.ts:375-388 | when an expression is tainted: that, a raw root anywhere inside, or a lookup of a root in a project-scoped collection |
| TaintMeaning.ScopeTaintMeaning | scripts/check-path-identity.ts:372-431 | a key is tainted if and only if a declaration, object property or assignment of the scope, outside nested functions, gives it a tainted value, and no smaller set has this property |
| TimeoutSearch.SearchSound | scripts/check-invariants.ts:413-445 | a positive answer comes with a path of spreads and bindings to a literal that has the key |
| TimeoutSearch.SearchComplete | scripts/check-invariants.ts:418-432 | a path that avoids the seen names is found |
| TimeoutSearch.SearchExact | scripts/check-invariants.ts:413-445 | on every binding graph, cyclic or not, the answer is yes if and only if a timeout is reachable |
| ShellWalk.ReadEntries | scripts/check-bash-portability.ts:195-219 | how many entries are read before the budget ends, which, and whether it ended |
| ShellWalk.VisitEntries | scripts/check-bash-portability.ts:147-194 | every entry is pushed, found, reported or rightly ignored |
| ShellWalk.VisitMeaning | scripts/check-bash-portability.ts:147-194 | an entry is entered if and only if it is a directory, and found if and only if it is a file whose name ends in `.sh`, with a real path inside the repository |
| ShellWalk.FailureMeaning | scripts/check-bash-portability.ts:147-194 | which failure an entry gives, each as an if-and-only-if |
| ShellWalk.WalkShFiles | scripts/check-bash-portability.ts:130-246 | on every directory relation the walk stops within the budget and reports only what is there; it reports the limit if and only if the depth-first walk does not fit the budget; otherwise it returns the shell files in depth-first order, exactly the reachable ones, and exactly the reachable failures |
| CommentStripper.StripComments | scripts/check-core-events-usage.ts:134-211 | the loop emits what the six-state machine emits |
| CommentStripper.StripPieces | scripts/check-core-events-usage.ts:131-133 | of a source written as code, comments and literals, exactly the comments go and literals stay verbatim |
| CommentStripper.StripRemovesComments | scripts/check-core-events-usage.ts:131-211 | every source is such a sequence of pieces, and the result is the source without its comment pieces |
| CommentStripper.StripIdempotent | scripts/check-core-events-usage.ts:134-211 | stripping twice is stripping once: deleting a comment never creates one |
| DiffReader.ParseUnifiedZeroAddedLines | scripts/check-test-tmpdir.ts:126-155 | the loop collects the added lines with the file and line number in force |
| DiffReader.ReadsDiffExactly | scripts/check-test-tmpdir.ts:126-155 | every added line of a diff comes back with its file, number and content if and only if none starts with `++ ` or ends in a carriage return |
| DiffReader.ReadsEditScript | scripts/check-test-tmpdir.ts:126-155 | the same for the zero-context diff of any edit script over several files, deleted files and no-newline markers included |
| DiffReader.AddedInNewFile | scripts/check-test-tmpdir.ts:145-152 | every entry of an edit script is that line of the new file |
| DiffReader.CarriageReturnLost | scripts/check-test-tmpdir.ts:131 | a concrete diff whose added line is not given back |
| DiffReader.PlusesLost | scripts/check-test-tmpdir.ts:132-135 | a concrete diff whose added line is taken for a file header |
| RawWriteAllowlist.ParseRawWriteAllowlist | scripts/check-invariants.ts:1373-1393 | the loop sorts the lines into entries, approvals and malformed lines |
| RawWriteAllowlist.EntryMeaning | scripts/check-invariants.ts:1386-1391 | a line is an entry if and only if it is a one-line text, a colon, blanks and decimal digits |
| RawWriteAllowlist.MalformedMeaning | scripts/check-invariants.ts:1380-1389 | a line is malformed if and only if it is not blank, no comment and not of that form |
| RawWriteAllowlist.ApprovalMeaning | scripts/check-invariants.ts:1367-1370 | a line is an approval if and only if it is a hash sign, the approval word and a text, with blanks between |
| RawWriteAllowlist.ParseMeaning | scripts/check-invariants.ts:1373-1393 | of every text: the malformed lines in order, the approvals, and for each path the count of its last entry |
| RawWriteAllowlist.ParsedPathsOk | scripts/check-invariants.ts:1386-1391 | every parsed path is non-empty, trimmed, on one line and no comment |
| RawWriteAllowlist.EntryLineReads | scripts/check-invariants.ts:1386-1391 | an entry line reads back as its path and count, colons in the path included |
| RawWriteAllowlist.MarkerLineReads | scripts/check-invariants.ts:1367-1370 | an approval line reads back as its payload |
| RawWriteAllowlist.EntryTextInjective | scripts/check-invariants.ts:1360-1361 | an approval names one path and one count |
| RawWriteAllowlist.RenderRawWriteAllowlist | scripts/check-invariants.ts:1431-1489 | the loops produce header, arms and the approvals that still name an entry |
| RawWriteAllowlist.HeaderLineInert | scripts/check-invariants.ts:1440-1474 | blank lines and comments that do not start like an approval add nothing |
| RawWriteAllowlist.NestedCommentInert | scripts/check-invariants.ts:1459 | nor does the approval that the header shows as an example |
| RawWriteAllowlist.RoundTrip | scripts/check-invariants.ts:1373-1489 | parsing a rendered allowlist gives the scanned counts, the live approvals and nothing malformed |
| RawWriteAllowlist.EntriesRoundTripIff | scripts/check-invariants.ts:1373-1489 | the entries come back if and only if every path survives the format |
| RawWriteRatchet.DiffAllowlistGrowth | scripts/check-invariants.ts:1407-1423 | the grown entries are exactly those above their base quota, each once |
| RawWriteRatchet.CheckRawWriteRatchet | scripts/check-invariants.ts:1551-1707 | one violation per malformed line, excess site, dead entry and enforced unapproved growth; none if and only if the change is accepted |
| RawWriteRatchet.BrokenLineViolates | scripts/check-invariants.ts:1595-1600 | a text with a malformed line has a violation |
| RawWriteRatchet.EnforcedCheckIsStep | scripts/check-invariants.ts:1597-1690 | an enforced check against a base accepts exactly the steps that runs are made of |
| RawWriteRatchet.QuotaBounded | scripts/check-invariants.ts:1657-1690 | over every run of enforced changes a quota is at most its initial value or some count approved for it |
| RawWriteRatchet.RunSafe | scripts/check-invariants.ts:1606-1690 | after every such run no file has more raw sites than its quota |
| RawWriteRatchet.NoApprovalNoGrowth | scripts/check-invariants.ts:1396-1406 | without approvals neither quota nor count ever rises |
| RawWriteRatchet.RegenerationClean | scripts/check-invariants.ts:1505-1524 | the regenerated file is clean for the scan it was made from |
| VacuousRatchet.EvaluateRatchet | scripts/check-vacuous-assertions.ts:240-327 | the three violation counts, the total and the exit code |
| VacuousRatchet.CountMeaning | scripts/check-vacuous-assertions.ts:245-283 | the counters count the places in the list of changed files |
| VacuousRatchet.StepKeeps | scripts/check-vacuous-assertions.ts:245-301 | an accepted change keeps every test file within any earlier baseline that it shrank from |
| VacuousRatchet.RunWithinBaseline | scripts/check-vacuous-assertions.ts:240-327 | after every run of accepted changes every test file is within the first baseline |
| VacuousRatchet.CurrentBaselineNotKept | scripts/check-vacuous-assertions.ts:245-283 | an accepted change may leave a file above the baseline it commits |
| VacuousRatchet.CommittedBaselineIff | scripts/check-vacuous-assertions.ts:245-301 | after an accepted change the committed baseline is a bound if and only if it bounds the files outside the changed ones |
| VacuousRatchet.CommittedBaselineKeptIff | scripts/check-vacuous-assertions.ts:245-301 | with complete lists of changed files: if and only if no entry of an unchanged file is cut below its count |
| WorkflowJobs.ParseWorkflowJobs | scripts/check-workflow-timeouts.ts:91-152 | the loops read the job blocks, their timeouts and their ends |
| WorkflowJobs.JobsMeaning | scripts/check-workflow-timeouts.ts:97-144 | one block per job key of the region indented like the first, named after it, each with the last timeout setting of its own lines |
| WorkflowJobs.JobsDisjoint | scripts/check-workflow-timeouts.ts:145-150 | blocks are in file order and none reaches into the next |
| WorkflowJobs.BlockEnds | scripts/check-workflow-timeouts.ts:145-150 | a block ends at the next one or at the end of the file, but no later than where the jobs region closes |
| WorkflowJobs.JobAtUnique | scripts/check-workflow-timeouts.ts:232-237 | a line in a block is attributed to that block |
| WorkflowBudgets.Push | scripts/check-workflow-timeouts.ts:84-88 | the cap never leaves an empty list empty |
| WorkflowBudgets.DisposeWaits | scripts/check-workflow-timeouts.ts:286-344 | no finding if and only if every wait function ends and every seq line lies in one, or in a job that never sleeps |
| WorkflowBudgets.CollectCalls | scripts/check-workflow-timeouts.ts:352-411 | every invocation outside its function is counted or reported |
| WorkflowBudgets.CheckJob | scripts/check-workflow-timeouts.ts:438-507 | no finding if and only if the job's budgets cover their targets and its timeout covers the sum |
| WorkflowBudgets.GroupByJob | scripts/check-workflow-timeouts.ts:431-437 | calls are grouped by job, in order and without loss |
| WorkflowBudgets.ScanWorkflow | scripts/check-workflow-timeouts.ts:278-520 | an empty result if and only if all waits are placed and covered and nothing was found before |
| WaitMeaning.CoveredMeaning | scripts/check-workflow-timeouts.ts:278-520 | that means, said about lines, blocks and calls with the numbers written out: all waits are placed, all calls attributed, every budget reaches its target and every timeout covers 1.2 times the sum, rounded up, plus 300 seconds |
| WaitMeaning.SumsMeaning | scripts/check-workflow-timeouts.ts:431-475 | the seconds added up for a job are those of its calls, line by line and function by function |
| WorkflowBudgets.PollLoopsAccounted | scripts/check-workflow-timeouts.ts:19-29 | then every poll loop lies in a job that never sleeps, or in a wait function all of whose invocations are counted |
| WorkflowBudgets.WaitsFit | scripts/check-workflow-timeouts.ts:3-15 | then every waiting job's timeout leaves room for 1.2 times its budgets, and its targets, plus five minutes |
| WaitOwners.BudgetsAreOwnIff | scripts/check-workflow-timeouts.ts:461-464 | every call is given the budget of the function it invokes if and only if functions of one name have the same defaults |
| WaitOwners.OwnWaitsFit | scripts/check-workflow-timeouts.ts:459-506 | then a waiting job's timeout leaves room for 1.2 times what the functions it invokes wait, plus five minutes |
| WaitOwners.NameTwiceHidesWait | scripts/check-workflow-timeouts.ts:461-464 | a concrete accepted file in which a repeated name hides a longer wait |
| RegistryCitations.ResolveMeaning | scripts/check-registry-citations.ts:510-550 | when a path resolves and to which file, when it is missing and when ambiguous, each as an if-and-only-if with the row and directory tie-breaks |
| RegistryCitations.RowPathsMeaning | scripts/check-registry-citations.ts:611-628 | the files that break ties are exactly those that some string of the row names explicitly |
| RegistryCitations.AnchorMeaning | scripts/check-registry-citations.ts:717-752 | a citation passes if and only if a cited line mentions the identifier, is out of range if and only if only other lines do, and absent if and only if none does |
| RegistryCitations.NotCheckable | scripts/check-registry-citations.ts:649-716 | every other verdict as an if-and-only-if: no path, missing, ambiguous, outside the file, no identifier, not an identifier |
| RegistryCitations.CollectFindings | scripts/check-registry-citations.ts:631-756 | every counter counts its bucket over the same citations, and the lists of structural findings and anchor failures |
| RegistryCitations.FindingsMeaning | scripts/check-registry-citations.ts:633-700 | a structural finding is reported if and only if some registry string deserves it: a malformed shape, a path that is missing or ambiguous, a range outside its file |
| RegistryCitations.AnchorFailuresMeaning | scripts/check-registry-citations.ts:705-752 | an anchor failure is listed if and only if some citation fails in that way |
| RegistryCitations.StructuralNone | scripts/check-registry-citations.ts:633-704 | no structural finding if and only if nothing is malformed and no citation is rejected |
| RegistryCitations.Conservation | scripts/check-registry-citations.ts:645-752 | the buckets add up: no citation is lost or counted twice |
| CloseLifecycle.CollectErrors | scripts/check-retention-registry.ts:839-982 | an error is reported if and only if it applies, and none if and only if registry and close are coherent |
| CloseLifecycle.DatabasesAreClosed | scripts/check-retention-registry.ts:873-899 | then a declared database that is not exempt is archived from a snapshot and removed after its handle is closed |
| CloseLifecycle.WiredIsOwned | scripts/check-retention-registry.ts:919-950 | and every artifact close touches has exactly one owning row, or none if it is listed as a known gap |

## Left out

- The runtime under `src/` (planner, ledger, locks) and the network, npm, gunzip, hashing, git and reporting parts of the scripts.
- UTF-8 decoding: the tar reader's text decoder is an arbitrary function; the round trip asks of it only that override payloads decode to their text.
- TarFormat.Intended covers which file an override names; what a global pax header gives to later files, an empty pax value and the order of preference between a long name and a pax path are not part of it.
- Tar.ParseTar: the returned map is modelled as a map, so the insertion order of its keys is not captured.
- RawWriteAllowlist.RenderRawWriteAllowlist: the header text is a parameter, and the arms come in any order, of which the locale order is one.
- RawWriteRatchet.CheckRawWriteRatchet: states the number of violations, not the messages; counts are unbounded integers.
- CloseLifecycle.CollectErrors: states which errors are reported and what they name, not their order, repetition or wording; the extraction of artifact names from path grammars is a parameter.
- WorkflowBudgets.ScanWorkflow: the arithmetic is over reals; how shell functions and their defaults are found in the text is a parameter, and which finding code a failure gets is not part of the contract.
- WorkflowJobs.ParseWorkflowJobs: the regular expressions that classify a line are parameters.
- ShellWalk.WalkShFiles: the locale-aware sort of a directory's entries is a parameter that permutes them.
- DiffReader.ReadsEditScript: file names are written plain; the quoting and the trailing tab that git adds to unusual names are not modelled.
- RegistryCitations.CollectFindings: finding citations in text and the word test are parameters; the wording of the findings and the anchor baseline are not modelled.
- The syntax tree is the part that the two gates read; node texts are fields, and what the violation pass reports from the taint sets is not modelled.
- The stripping copies in the shell-audit and trajectory gates, the heuristic text gates, the file-cap ratchet and the shape validators: easier instances or lists of independent checks.
