/** The bounded directory walk of the bash-portability gate. The file system
    is an arbitrary relation, cyclic or not; the walk keeps no visited set and
    is bounded by its entry budget alone. */
module ShellWalk {
  import opened Text

  datatype EntryType = Directory | File | SymbolicLink | Special | Unknown

  datatype Dirent = Dirent(name: string, kind: EntryType)

  /** What enumerating a directory yields: the entries read, and whether the
      enumeration or the closing of the handle failed. */
  datatype Listing = Listing(entries: seq<Dirent>, enumerated: bool, closed: bool)

  /** `sort` is the locale-aware sort of the entries by name. */
  datatype FileSystem = FileSystem(
    join: (string, string) -> string,
    sort: seq<Dirent> -> seq<Dirent>,
    excluded: string -> bool,
    list: string -> Listing,
    lstat: string -> Option<EntryType>,
    realpath: string -> Option<string>,
    contained: string -> bool)

  datatype Error =
    | CannotInspect(path: string)
    | CannotClassify(path: string)
    | CannotCanonicalize(path: string)
    | OutsideRepository(path: string)
    | CannotEnumerate(path: string)
    | CannotClose(path: string)
    | EntryLimit

  ghost predicate SortPermutes(fs: FileSystem) {
    forall es :: multiset(fs.sort(es)) == multiset(es)
  }

  predicate IsShellName(name: string) {
    |name| >= 3 && name[|name| - 3..] == ".sh"
  }

  // ---------------------------------------------------------------------
  // One entry
  // ---------------------------------------------------------------------

  /** What visiting an entry does. */
  datatype Visit = Ignore | Fail(error: Error) | Descend(dir: string) | Found(file: string)

  function Kind(fs: FileSystem, full: string, e: Dirent): Option<EntryType> {
    if e.kind.Unknown? then fs.lstat(full) else Some(e.kind)
  }

  function VisitEntry(fs: FileSystem, dir: string, e: Dirent): Visit {
    var full := fs.join(dir, e.name);
    if fs.excluded(full) then Ignore
    else if Kind(fs, full, e).None? then Fail(CannotInspect(full))
    else
      var kind := Kind(fs, full, e).value;
      if kind.Unknown? then Fail(CannotClassify(full))
      else if kind.SymbolicLink? || kind.Special? then Ignore
      else if fs.realpath(full).None? then Fail(CannotCanonicalize(full))
      else
        var canonical := fs.realpath(full).value;
        if !fs.contained(canonical) then Fail(OutsideRepository(full))
        else if kind.Directory? then Descend(canonical)
        else if IsShellName(e.name) then Found(canonical)
        else Ignore
  }

  /** The entry is of this type, by its own word or, failing that, by lstat. */
  ghost predicate TypeIs(fs: FileSystem, full: string, e: Dirent, kind: EntryType) {
    if e.kind == Unknown then fs.lstat(full) == Some(kind) else e.kind == kind
  }

  /** A directory or file whose real path is known. */
  ghost predicate RealPath(fs: FileSystem, full: string, e: Dirent, kind: EntryType, canonical: string) {
    !fs.excluded(full) && TypeIs(fs, full, e, kind) && fs.realpath(full) == Some(canonical)
  }

  lemma KindMeaning(fs: FileSystem, full: string, e: Dirent, kind: EntryType)
    ensures Kind(fs, full, e) == Some(kind) <==> TypeIs(fs, full, e, kind)
  {
  }

  /** What an entry gives: directories and shell files inside the repository,
      never a link or special file. */
  lemma VisitMeaning(fs: FileSystem, dir: string, e: Dirent, x: string)
    ensures var full := fs.join(dir, e.name);
      && (VisitEntry(fs, dir, e) == Descend(x) <==> RealPath(fs, full, e, Directory, x) && fs.contained(x))
      && (VisitEntry(fs, dir, e) == Found(x) <==>
            RealPath(fs, full, e, File, x) && fs.contained(x) && exists stem :: e.name == stem + ".sh")
  {
    hide TypeIs, Kind, IsShellName;
    var full := fs.join(dir, e.name);
    KindMeaning(fs, full, e, Directory);
    KindMeaning(fs, full, e, File);
    ShellNameMeaning(e.name);
  }

  /** A failure for what cannot be told or lies outside. */
  ghost predicate FailsAs(fs: FileSystem, full: string, e: Dirent, error: Error) {
    !fs.excluded(full) &&
    match error
    case CannotInspect(x) => x == full && e.kind == Unknown && fs.lstat(full) == None
    case CannotClassify(x) => x == full && TypeIs(fs, full, e, Unknown)
    case CannotCanonicalize(x) => x == full && Enterable(fs, full, e) && fs.realpath(full) == None
    case OutsideRepository(x) =>
      x == full && Enterable(fs, full, e) && exists c :: fs.realpath(full) == Some(c) && !fs.contained(c)
    case _ => false
  }

  ghost predicate Enterable(fs: FileSystem, full: string, e: Dirent) {
    TypeIs(fs, full, e, Directory) || TypeIs(fs, full, e, File)
  }

  lemma FailureMeaning(fs: FileSystem, dir: string, e: Dirent, error: Error)
    ensures VisitEntry(fs, dir, e) == Fail(error) <==> FailsAs(fs, fs.join(dir, e.name), e, error)
  {
    hide TypeIs, Kind, IsShellName;
    var full := fs.join(dir, e.name);
    KindMeaning(fs, full, e, Directory);
    KindMeaning(fs, full, e, File);
    KindMeaning(fs, full, e, Unknown);
    NoKind(fs, full, e);
  }

  lemma NoKind(fs: FileSystem, full: string, e: Dirent)
    ensures Kind(fs, full, e) == None <==> e.kind == Unknown && fs.lstat(full) == None
  {
  }

  lemma ShellNameMeaning(name: string)
    ensures IsShellName(name) <==> exists stem :: name == stem + ".sh"
  {
    if IsShellName(name) {
      assert name == name[..|name| - 3] + ".sh";
    }
  }

  // ---------------------------------------------------------------------
  // What the walk should find
  // ---------------------------------------------------------------------

  ghost predicate HasChild(fs: FileSystem, dir: string, v: Visit) {
    !fs.excluded(dir) && exists i :: 0 <= i < |fs.list(dir).entries| && VisitEntry(fs, dir, fs.list(dir).entries[i]) == v
  }

  /** A chain of directories, each a non-excluded child of the one before. */
  ghost predicate IsTrail(fs: FileSystem, start: string, trail: seq<string>) {
    && trail != [] && trail[0] == start
    && forall i :: 0 < i < |trail| ==> HasChild(fs, trail[i - 1], Descend(trail[i]))
  }

  ghost predicate Reachable(fs: FileSystem, start: string, dir: string) {
    exists trail :: IsTrail(fs, start, trail) && trail[|trail| - 1] == dir
  }

  ghost predicate IsShellFile(fs: FileSystem, start: string, file: string) {
    exists dir :: Reachable(fs, start, dir) && HasChild(fs, dir, Found(file))
  }

  /** A failure of a reachable directory or of one of its entries. */
  ghost predicate Failure(fs: FileSystem, dir: string, e: Error) {
    || HasChild(fs, dir, Fail(e))
    || (!fs.excluded(dir) && !fs.list(dir).enumerated && e == CannotEnumerate(dir))
    || (!fs.excluded(dir) && !fs.list(dir).closed && e == CannotClose(dir))
  }

  ghost predicate IsFailure(fs: FileSystem, start: string, e: Error) {
    exists dir :: Reachable(fs, start, dir) && Failure(fs, dir, e)
  }

  lemma ReachableStart(fs: FileSystem, start: string)
    ensures Reachable(fs, start, start)
  {
    assert IsTrail(fs, start, [start]) && [start][|[start]| - 1] == start;
  }

  lemma ReachableStep(fs: FileSystem, start: string, dir: string, child: string)
    requires Reachable(fs, start, dir) && HasChild(fs, dir, Descend(child))
    ensures Reachable(fs, start, child)
  {
    var trail :| IsTrail(fs, start, trail) && trail[|trail| - 1] == dir;
    var longer := trail + [child];
    assert IsTrail(fs, start, longer) && longer[|longer| - 1] == child;
  }

  /** A set of directories that contains the start and all children of its
      members contains everything reachable. */
  lemma {:induction false} TrailInside(fs: FileSystem, start: string, trail: seq<string>, dirs: set<string>)
    requires IsTrail(fs, start, trail) && start in dirs
    requires forall d, c :: d in dirs && HasChild(fs, d, Descend(c)) ==> c in dirs
    ensures trail[|trail| - 1] in dirs
  {
    if |trail| > 1 {
      TrailInside(fs, start, trail[..|trail| - 1], dirs);
      assert HasChild(fs, trail[|trail| - 2], Descend(trail[|trail| - 1]));
    }
  }

  // ---------------------------------------------------------------------
  // The depth-first order
  // ---------------------------------------------------------------------

  /** The entries of a directory in the order in which they are visited. */
  function EntriesOf(fs: FileSystem, dir: string): seq<Dirent> {
    if fs.excluded(dir) then [] else fs.sort(fs.list(dir).entries)
  }

  function Subdirs(fs: FileSystem, dir: string, es: seq<Dirent>): seq<string> {
    if es == [] then [] else
      Subdirs(fs, dir, es[..|es| - 1])
      + match VisitEntry(fs, dir, es[|es| - 1]) case Descend(c) => [c] case _ => []
  }

  function ShellFiles(fs: FileSystem, dir: string, es: seq<Dirent>): seq<string> {
    if es == [] then [] else
      ShellFiles(fs, dir, es[..|es| - 1])
      + match VisitEntry(fs, dir, es[|es| - 1]) case Found(f) => [f] case _ => []
  }

  /** The directories that a walk without any bound takes from the stack, in
      order, until the stack is empty. There is none when the walk would not end. */
  ghost predicate Schedule(fs: FileSystem, stack: seq<string>, order: seq<string>)
    decreases |order|
  {
    if stack == [] then order == [] else
      order != [] && order[0] == stack[|stack| - 1]
      && Schedule(fs, stack[..|stack| - 1] + Subdirs(fs, order[0], EntriesOf(fs, order[0])), order[1..])
  }

  /** The number of entries in a list of directories. */
  ghost function EntryCount(fs: FileSystem, dirs: seq<string>): nat {
    if dirs == [] then 0
    else EntryCount(fs, dirs[..|dirs| - 1]) + |EntriesOf(fs, dirs[|dirs| - 1])|
  }

  /** All entries fit the budget, and some of it is left for the last directory. */
  ghost predicate WithinBudget(fs: FileSystem, order: seq<string>, maxEntries: nat) {
    order != [] && EntryCount(fs, order) <= maxEntries && EntryCount(fs, order[..|order| - 1]) < maxEntries
  }

  /** The shell files of a list of directories, in order. */
  ghost function FilesIn(fs: FileSystem, dirs: seq<string>): seq<string> {
    if dirs == [] then [] else
      FilesIn(fs, dirs[..|dirs| - 1]) + ShellFiles(fs, dirs[|dirs| - 1], EntriesOf(fs, dirs[|dirs| - 1]))
  }

  lemma OneMore(fs: FileSystem, popped: seq<string>, dir: string)
    ensures EntryCount(fs, popped + [dir]) == EntryCount(fs, popped) + |EntriesOf(fs, dir)|
    ensures FilesIn(fs, popped + [dir]) == FilesIn(fs, popped) + ShellFiles(fs, dir, EntriesOf(fs, dir))
  {
    assert (popped + [dir])[..|popped|] == popped;
  }

  lemma {:induction false} CountGrows(fs: FileSystem, dirs: seq<string>, k: nat)
    requires k <= |dirs|
    ensures EntryCount(fs, dirs[..k]) <= EntryCount(fs, dirs)
    decreases |dirs| - k
  {
    if k == |dirs| {
      assert dirs[..k] == dirs;
    } else {
      assert dirs[..k + 1][..k] == dirs[..k];
      CountGrows(fs, dirs, k + 1);
    }
  }

  /** Where the walk stands: every schedule continues what was taken so far. */
  ghost predicate OnSchedule(fs: FileSystem, start: string, popped: seq<string>, stack: seq<string>) {
    && (forall order :: Schedule(fs, [start], order) ==> popped <= order && Schedule(fs, stack, order[|popped|..]))
    && (forall rest :: Schedule(fs, stack, rest) ==> Schedule(fs, [start], popped + rest))
  }

  lemma OnScheduleAtStart(fs: FileSystem, start: string)
    ensures OnSchedule(fs, start, [], [start])
  {
    forall order | Schedule(fs, [start], order)
      ensures [] <= order && Schedule(fs, [start], order[0..])
    {
      assert order[0..] == order;
    }
    forall rest | Schedule(fs, [start], rest)
      ensures Schedule(fs, [start], [] + rest)
    {
      assert [] + rest == rest;
    }
  }

  lemma ScheduleOne(fs: FileSystem, stack: seq<string>, dir: string, order: seq<string>)
    ensures Schedule(fs, stack + [dir], order) <==>
      order != [] && order[0] == dir && Schedule(fs, stack + Subdirs(fs, dir, EntriesOf(fs, dir)), order[1..])
  {
    hide EntriesOf, Subdirs;
    assert (stack + [dir])[..|stack|] == stack;
  }

  lemma OnScheduleStep(fs: FileSystem, start: string, popped: seq<string>, stack: seq<string>, dir: string)
    requires OnSchedule(fs, start, popped, stack + [dir])
    ensures OnSchedule(fs, start, popped + [dir], stack + Subdirs(fs, dir, EntriesOf(fs, dir)))
  {
    hide EntriesOf, Subdirs, Schedule;
    var after := stack + Subdirs(fs, dir, EntriesOf(fs, dir));
    forall order | Schedule(fs, [start], order)
      ensures popped + [dir] <= order && Schedule(fs, after, order[|popped + [dir]|..])
    {
      var tail := order[|popped|..];
      ScheduleOne(fs, stack, dir, tail);
      assert tail[1..] == order[|popped + [dir]|..] && order[|popped|] == dir;
    }
    forall rest | Schedule(fs, after, rest)
      ensures Schedule(fs, [start], popped + [dir] + rest)
    {
      var tail := [dir] + rest;
      assert tail[1..] == rest;
      ScheduleOne(fs, stack, dir, tail);
      assert popped + [dir] + rest == popped + tail;
    }
  }

  /** A walk that has used up its budget with work left, or met one entry too
      many, is on no schedule within the budget. */
  lemma OverBudget(fs: FileSystem, start: string, popped: seq<string>, stack: seq<string>, maxEntries: nat)
    requires OnSchedule(fs, start, popped, stack)
    requires EntryCount(fs, popped) > maxEntries || (EntryCount(fs, popped) == maxEntries && stack != [])
    ensures forall order :: Schedule(fs, [start], order) ==> !WithinBudget(fs, order, maxEntries)
  {
    hide EntryCount, EntriesOf, Subdirs;
    forall order | Schedule(fs, [start], order)
      ensures !WithinBudget(fs, order, maxEntries)
    {
      var k := |popped|;
      assert order[..k] == popped;
      CountGrows(fs, order, k);
      if stack != [] {
        assert order[k..] != [];
        var init := order[..|order| - 1];
        assert init[..k] == popped;
        CountGrows(fs, init, k);
      }
    }
  }

  // ---------------------------------------------------------------------
  // The walk
  // ---------------------------------------------------------------------

  /** Everything on the stack is reachable, everything found is a shell file
      and every error but the entry limit is a real failure. */
  ghost predicate Honest(fs: FileSystem, start: string, stack: seq<string>, out: seq<string>, errors: seq<Error>) {
    && (forall d :: d in stack ==> Reachable(fs, start, d))
    && (forall f :: f in out ==> IsShellFile(fs, start, f))
    && (forall e :: e in errors ==> IsFailure(fs, start, e))
  }

  /** What a directory holds is pending, found or reported. */
  ghost predicate Accounted(fs: FileSystem, dir: string, stack: seq<string>, out: seq<string>, errors: seq<Error>) {
    && (forall c :: HasChild(fs, dir, Descend(c)) ==> c in stack)
    && (forall f :: HasChild(fs, dir, Found(f)) ==> f in out)
    && (forall e :: Failure(fs, dir, e) ==> e in errors)
  }

  ghost predicate Covered(fs: FileSystem, start: string, finished: seq<string>, stack: seq<string>,
                          out: seq<string>, errors: seq<Error>)
  {
    && start in finished + stack
    && forall d :: d in finished ==> Accounted(fs, d, finished + stack, out, errors)
  }

  /** The first `budget` entries of a listing, and whether more were met. */
  method ReadEntries(listing: Listing, visited: nat, maxEntries: nat)
    returns (entries: seq<Dirent>, visited': nat, hitLimit: bool)
    requires visited <= maxEntries
    ensures entries <= listing.entries && visited' <= maxEntries + 1
    ensures hitLimit <==> |listing.entries| > maxEntries - visited
    ensures hitLimit ==> visited' == maxEntries + 1 && |entries| == maxEntries - visited
    ensures !hitLimit ==> entries == listing.entries && visited' == visited + |entries|
  {
    entries, visited', hitLimit := [], visited, false;
    var i := 0;
    while i < |listing.entries| && !hitLimit
      invariant i <= |listing.entries| && visited + i <= maxEntries && visited' <= maxEntries + 1
      invariant hitLimit ==> i < |listing.entries| && visited + i == maxEntries && visited' == maxEntries + 1
      invariant !hitLimit ==> visited' == visited + i
      invariant entries == listing.entries[..i]
      decreases |listing.entries| - i, !hitLimit
    {
      visited' := visited' + 1;
      if visited' > maxEntries {
        hitLimit := true;
      } else {
        entries := entries + [listing.entries[i]];
        i := i + 1;
      }
    }
  }

  ghost predicate Handled(v: Visit, stack: seq<string>, out: seq<string>, errors: seq<Error>) {
    match v
    case Ignore => true
    case Fail(e) => e in errors
    case Descend(c) => c in stack
    case Found(f) => f in out
  }

  method VisitEntries(fs: FileSystem, start: string, dir: string, entries: seq<Dirent>,
                      stack0: seq<string>, out0: seq<string>, errors0: seq<Error>)
    returns (stack: seq<string>, out: seq<string>, errors: seq<Error>)
    requires (forall e :: e in entries ==> e in fs.list(dir).entries) && !fs.excluded(dir) && Reachable(fs, start, dir)
    requires Honest(fs, start, stack0, out0, errors0)
    ensures stack == stack0 + Subdirs(fs, dir, entries) && |stack| <= |stack0| + |entries|
    ensures out == out0 + ShellFiles(fs, dir, entries) && errors0 <= errors
    ensures Honest(fs, start, stack, out, errors)
    ensures forall i :: 0 <= i < |entries| ==> Handled(VisitEntry(fs, dir, entries[i]), stack, out, errors)
  {
    hide VisitEntry, Subdirs, ShellFiles, HasChild, Reachable, IsShellFile, IsFailure;
    stack, out, errors := stack0, out0, errors0;
    NoneVisited(fs, dir);
    for k := 0 to |entries|
      invariant stack == stack0 + Subdirs(fs, dir, entries[..k]) && |stack| <= |stack0| + k
      invariant out == out0 + ShellFiles(fs, dir, entries[..k]) && errors0 <= errors
      invariant Honest(fs, start, stack, out, errors)
      invariant forall i :: 0 <= i < k ==> Handled(VisitEntry(fs, dir, entries[i]), stack, out, errors)
    {
      assert entries[k] in fs.list(dir).entries;
      VisitStep(fs, dir, entries, k);
      ChildCounts(fs, start, dir, entries[k]);
      match VisitEntry(fs, dir, entries[k]) {
        case Ignore =>
        case Fail(error) =>
          errors := errors + [error];
        case Descend(child) =>
          stack := stack + [child];
        case Found(file) =>
          out := out + [file];
      }
    }
    assert entries[..|entries|] == entries;
  }

  lemma NoneVisited(fs: FileSystem, dir: string)
    ensures Subdirs(fs, dir, []) == [] && ShellFiles(fs, dir, []) == []
  {
  }

  lemma VisitStep(fs: FileSystem, dir: string, es: seq<Dirent>, k: nat)
    requires k < |es|
    ensures Subdirs(fs, dir, es[..k + 1])
         == Subdirs(fs, dir, es[..k]) + match VisitEntry(fs, dir, es[k]) case Descend(c) => [c] case _ => []
    ensures ShellFiles(fs, dir, es[..k + 1])
         == ShellFiles(fs, dir, es[..k]) + match VisitEntry(fs, dir, es[k]) case Found(f) => [f] case _ => []
  {
    hide VisitEntry;
    assert es[..k + 1][..k] == es[..k];
  }

  /** What an entry of a reachable directory gives counts. */
  lemma ChildCounts(fs: FileSystem, start: string, dir: string, e: Dirent)
    requires e in fs.list(dir).entries && !fs.excluded(dir) && Reachable(fs, start, dir)
    ensures match VisitEntry(fs, dir, e)
      case Ignore => true
      case Fail(error) => IsFailure(fs, start, error)
      case Descend(child) => Reachable(fs, start, child)
      case Found(file) => IsShellFile(fs, start, file)
  {
    hide VisitEntry, Reachable;
    var v := VisitEntry(fs, dir, e);
    assert HasChild(fs, dir, v);
    match v
    case Ignore =>
    case Fail(error) => assert Failure(fs, dir, error);
    case Descend(child) => ReachableStep(fs, start, dir, child);
    case Found(file) =>
  }

  lemma SortKeeps(fs: FileSystem, es: seq<Dirent>)
    requires SortPermutes(fs)
    ensures |fs.sort(es)| == |es| && forall e :: e in fs.sort(es) <==> e in es
  {
    assert |multiset(fs.sort(es))| == |multiset(es)|;
    assert forall e :: e in fs.sort(es) <==> e in multiset(fs.sort(es));
    assert forall e :: e in es <==> e in multiset(es);
  }

  lemma HandledInOrder(fs: FileSystem, dir: string, stack: seq<string>, out: seq<string>, errors: seq<Error>)
    requires SortPermutes(fs)
    requires var es := fs.sort(fs.list(dir).entries);
      forall i :: 0 <= i < |es| ==> Handled(VisitEntry(fs, dir, es[i]), stack, out, errors)
    ensures forall e :: e in fs.list(dir).entries ==> Handled(VisitEntry(fs, dir, e), stack, out, errors)
  {
    hide VisitEntry;
    SortKeeps(fs, fs.list(dir).entries);
    forall e | e in fs.list(dir).entries
      ensures Handled(VisitEntry(fs, dir, e), stack, out, errors)
    {
      var es := fs.sort(fs.list(dir).entries);
      assert e in es;
      var i :| 0 <= i < |es| && es[i] == e;
    }
  }

  /** One directory: everything in it is accounted for, unless it holds more
      entries than are left of the budget. */
  method VisitDirectory(fs: FileSystem, start: string, dir: string, visited0: nat, maxEntries: nat,
                        stack0: seq<string>, out0: seq<string>, errors0: seq<Error>)
    returns (stack: seq<string>, out: seq<string>, errors: seq<Error>, visited: nat, hitLimit: bool)
    requires SortPermutes(fs) && !fs.excluded(dir) && Reachable(fs, start, dir) && visited0 <= maxEntries
    requires Honest(fs, start, stack0, out0, errors0)
    ensures Honest(fs, start, stack, out, errors) && errors0 <= errors
    ensures hitLimit <==> visited0 + |EntriesOf(fs, dir)| > maxEntries
    ensures visited == if hitLimit then maxEntries + 1 else visited0 + |EntriesOf(fs, dir)|
    ensures !hitLimit ==>
      && stack == stack0 + Subdirs(fs, dir, EntriesOf(fs, dir))
      && |stack| <= |stack0| + |EntriesOf(fs, dir)|
      && out == out0 + ShellFiles(fs, dir, EntriesOf(fs, dir))
      && Accounted(fs, dir, stack, out, errors)
  {
    hide VisitEntry, HasChild, Reachable, SortPermutes, Subdirs, ShellFiles;
    errors := errors0;
    var listing := fs.list(dir);
    var entries;
    entries, visited, hitLimit := ReadEntries(listing, visited0, maxEntries);
    SortKeeps(fs, listing.entries);
    SortKeeps(fs, entries);
    ListingFailures(fs, start, dir);
    if !listing.enumerated && !hitLimit {
      errors := errors + [CannotEnumerate(dir)];
    }
    if !listing.closed {
      errors := errors + [CannotClose(dir)];
    }
    ghost var errors1 := errors;
    stack, out, errors := VisitEntries(fs, start, dir, fs.sort(entries), stack0, out0, errors);
    assert forall e :: e in errors1 ==> e in errors;
    if !hitLimit {
      HandledInOrder(fs, dir, stack, out, errors);
      AccountedNow(fs, dir, stack, out, errors);
    }
  }

  /** On every file system the walk stops after at most maxEntries + 1 entries
      and reports only what is there. It reports the entry limit exactly when
      the depth-first walk has no schedule within the budget. Otherwise it has
      followed that schedule and returns its shell files in order, which are
      exactly the reachable ones, and exactly the reachable failures. */
  method WalkShFiles(fs: FileSystem, start: string, maxEntries: nat)
    returns (out: seq<string>, errors: seq<Error>, visited: nat, ghost popped: seq<string>)
    requires SortPermutes(fs)
    ensures visited <= maxEntries + 1
    ensures EntryLimit in errors <==>
      forall order :: Schedule(fs, [start], order) ==> !WithinBudget(fs, order, maxEntries)
    ensures forall f :: f in out ==> IsShellFile(fs, start, f)
    ensures forall e :: e in errors ==> e.EntryLimit? || IsFailure(fs, start, e)
    ensures EntryLimit !in errors ==>
      && Schedule(fs, [start], popped) && WithinBudget(fs, popped, maxEntries)
      && EntryCount(fs, popped) == visited && out == FilesIn(fs, popped)
      && (forall f :: f in out <==> IsShellFile(fs, start, f))
      && (forall e :: e in errors <==> IsFailure(fs, start, e))
  {
    hide HasChild, Reachable, Covered, Accounted, EntryCount, FilesIn, SortPermutes, OnSchedule, Subdirs, ShellFiles, Schedule,
         IsShellFile, IsFailure;
    out, errors, visited, popped := [], [], 0, [];
    NothingYet(fs);
    NoLimitFailure(fs, start);
    var stack := [start];
    CoveredAtStart(fs, start);
    ReachableStart(fs, start);
    OnScheduleAtStart(fs, start);
    while |stack| > 0 && visited < maxEntries
      invariant visited <= maxEntries && EntryCount(fs, popped) == visited && out == FilesIn(fs, popped)
      invariant if popped == [] then stack != [] else EntryCount(fs, popped[..|popped| - 1]) < maxEntries
      invariant OnSchedule(fs, start, popped, stack)
      invariant Honest(fs, start, stack, out, errors)
      invariant Covered(fs, start, popped, stack, out, errors)
      decreases maxEntries - visited, |stack|
    {
      var current := stack[|stack| - 1];
      ghost var pending := stack;
      stack := stack[..|stack| - 1];
      ghost var stack0, out0, errors0, popped0 := stack, out, errors, popped;
      assert stack0 + [current] == pending;
      OneMore(fs, popped, current);
      OnScheduleStep(fs, start, popped, stack, current);
      popped := popped + [current];
      assert popped[..|popped| - 1] == popped0;
      if fs.excluded(current) {
        NoChildren(fs, current, stack, out, errors);
        assert stack0 + [] == stack0;
      } else {
        assert Reachable(fs, start, current);
        var hitLimit;
        stack, out, errors, visited, hitLimit := VisitDirectory(fs, start, current, visited, maxEntries, stack, out, errors);
        if hitLimit {
          OverBudget(fs, start, popped, stack0 + Subdirs(fs, current, EntriesOf(fs, current)), maxEntries);
          errors := errors + [EntryLimit];
          assert errors[|errors| - 1] == EntryLimit;
          return;
        }
      }
      CoveredMore(fs, start, popped0, stack0, out0, errors0, current, stack, out, errors);
    }
    if |stack| > 0 {
      OverBudget(fs, start, popped, stack, maxEntries);
      errors := errors + [EntryLimit];
      assert errors[|errors| - 1] == EntryLimit;
    } else {
      AllFound(fs, start, popped, out, errors);
      ScheduleDone(fs, start, popped);
      assert WithinBudget(fs, popped, maxEntries);
    }
  }

  lemma ScheduleDone(fs: FileSystem, start: string, popped: seq<string>)
    requires OnSchedule(fs, start, popped, [])
    ensures Schedule(fs, [start], popped)
  {
    assert Schedule(fs, [], []);
    assert popped + [] == popped;
  }

  lemma NoChildren(fs: FileSystem, dir: string, stack: seq<string>, out: seq<string>, errors: seq<Error>)
    requires fs.excluded(dir)
    ensures Subdirs(fs, dir, EntriesOf(fs, dir)) == [] && ShellFiles(fs, dir, EntriesOf(fs, dir)) == []
    ensures Accounted(fs, dir, stack, out, errors)
  {
  }

  lemma NothingYet(fs: FileSystem)
    ensures EntryCount(fs, []) == 0 && FilesIn(fs, []) == []
  {
  }

  lemma CoveredAtStart(fs: FileSystem, start: string)
    ensures Covered(fs, start, [], [start], [], [])
  {
  }

  lemma ListingFailures(fs: FileSystem, start: string, dir: string)
    requires Reachable(fs, start, dir) && !fs.excluded(dir)
    ensures !fs.list(dir).enumerated ==> IsFailure(fs, start, CannotEnumerate(dir))
    ensures !fs.list(dir).closed ==> IsFailure(fs, start, CannotClose(dir))
  {
    hide Reachable;
    assert !fs.list(dir).enumerated ==> Failure(fs, dir, CannotEnumerate(dir));
    assert !fs.list(dir).closed ==> Failure(fs, dir, CannotClose(dir));
  }

  lemma AccountedNow(fs: FileSystem, dir: string, stack: seq<string>, out: seq<string>, errors: seq<Error>)
    requires !fs.excluded(dir) ==>
      && (forall e :: e in fs.list(dir).entries ==> Handled(VisitEntry(fs, dir, e), stack, out, errors))
      && (!fs.list(dir).enumerated ==> CannotEnumerate(dir) in errors)
      && (!fs.list(dir).closed ==> CannotClose(dir) in errors)
    ensures Accounted(fs, dir, stack, out, errors)
  {
    hide VisitEntry;
  }

  lemma NoLimitFailure(fs: FileSystem, start: string)
    ensures !IsFailure(fs, start, EntryLimit)
  {
  }

  lemma CoveredMore(fs: FileSystem, start: string, finished: seq<string>, stack0: seq<string>, out0: seq<string>,
                    errors0: seq<Error>, current: string, stack: seq<string>, out: seq<string>, errors: seq<Error>)
    requires Covered(fs, start, finished, stack0 + [current], out0, errors0)
    requires stack0 <= stack && out0 <= out && errors0 <= errors
    requires Accounted(fs, current, stack, out, errors)
    ensures Covered(fs, start, finished + [current], stack, out, errors)
  {
    hide HasChild, Failure;
    var before, after := finished + (stack0 + [current]), finished + [current] + stack;
    assert forall d :: d in before ==> d in after;
    assert forall d :: d in stack ==> d in after;
    forall d | d in finished + [current]
      ensures Accounted(fs, d, after, out, errors)
    {
      if d != current {
        assert Accounted(fs, d, before, out0, errors0);
      }
    }
  }

  lemma AllFound(fs: FileSystem, start: string, finished: seq<string>, out: seq<string>, errors: seq<Error>)
    requires Covered(fs, start, finished, [], out, errors)
    ensures forall f :: IsShellFile(fs, start, f) ==> f in out
    ensures forall e :: IsFailure(fs, start, e) ==> e in errors
  {
    hide HasChild, Failure;
    var dirs := set d | d in finished;
    assert finished + [] == finished;
    forall dir | Reachable(fs, start, dir)
      ensures Accounted(fs, dir, finished, out, errors)
    {
      var trail :| IsTrail(fs, start, trail) && trail[|trail| - 1] == dir;
      TrailInside(fs, start, trail, dirs);
    }
  }
}
