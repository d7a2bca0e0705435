/** Which name the tar reader gives to each file of an archive, said about the
    records before it. */
module TarNames {
  import opened Text
  import opened Tar
  import opened PaxHeader
  import opened TarArchive
  import opened TarFormat

  /** Record type flags: `0`, NUL and `7` are files, `L` is a long name, `x` and
      `X` are pax headers. */
  ghost predicate IsFile(r: Record) {
    r.kind == 0x30 || r.kind == 0 || r.kind == 0x37
  }

  ghost predicate HoldsLongName(r: Record) {
    r.kind == 0x4C
  }

  ghost predicate HoldsPath(r: Record, decode: seq<byte> -> string) {
    (r.kind == 0x78 || r.kind == 0x58) && PaxPath(decode(r.payload)).Some?
  }

  /** Record j is the last long name before record i, with no file between. */
  ghost predicate LongNameFor(rs: seq<Record>, j: nat, i: nat) {
    && j < i <= |rs| && HoldsLongName(rs[j])
    && forall k :: j < k < i ==> !HoldsLongName(rs[k]) && !IsFile(rs[k])
  }

  /** Record j is the last pax header with a path before record i, likewise. */
  ghost predicate PathFor(rs: seq<Record>, j: nat, i: nat, decode: seq<byte> -> string) {
    && j < i <= |rs| && HoldsPath(rs[j], decode)
    && forall k :: j < k < i ==> !HoldsPath(rs[k], decode) && !IsFile(rs[k])
  }

  lemma {:induction false} LongNameMeaning(rs: seq<Record>, i: nat, decode: seq<byte> -> string)
    requires i <= |rs|
    ensures var name := PendingAt(rs, i, decode, false).longName;
      && (forall j: nat :: LongNameFor(rs, j, i) ==> name == Some(StripNuls(decode(rs[j].payload))))
      && ((forall j: nat :: !LongNameFor(rs, j, i)) ==> name == None)
  {
    hide PaxPath, StripNuls;
    if i > 0 {
      var n := i - 1;
      LongNameMeaning(rs, n, decode);
      if HoldsLongName(rs[n]) {
        assert LongNameFor(rs, n, i);
        assert forall j: nat :: LongNameFor(rs, j, i) ==> j == n;
      } else {
        assert forall j: nat :: LongNameFor(rs, j, i) <==> LongNameFor(rs, j, n) && !IsFile(rs[n]);
      }
    }
  }

  lemma {:induction false} PathMeaning(rs: seq<Record>, i: nat, decode: seq<byte> -> string)
    requires i <= |rs|
    ensures var path := PendingAt(rs, i, decode, false).paxPath;
      && (forall j: nat :: PathFor(rs, j, i, decode) ==> path == PaxPath(decode(rs[j].payload)))
      && ((forall j: nat :: !PathFor(rs, j, i, decode)) ==> path == None)
  {
    hide PaxPath, StripNuls;
    if i > 0 {
      var n := i - 1;
      PathMeaning(rs, n, decode);
      if HoldsPath(rs[n], decode) {
        assert PathFor(rs, n, i, decode);
        assert forall j: nat :: PathFor(rs, j, i, decode) ==> j == n;
      } else {
        assert forall j: nat :: PathFor(rs, j, i, decode) <==> PathFor(rs, j, n, decode) && !IsFile(rs[n]);
      }
    }
  }

  /** The name given to record i: a long name before a pax path before the
      header's own prefix and name. */
  ghost predicate Given(rs: seq<Record>, i: nat, decode: seq<byte> -> string, name: string) {
    i < |rs| &&
    if exists j: nat :: LongNameFor(rs, j, i) then
      exists j: nat :: LongNameFor(rs, j, i) && name == StripNuls(decode(rs[j].payload))
    else if exists j: nat :: PathFor(rs, j, i, decode) then
      exists j: nat :: PathFor(rs, j, i, decode) && PaxPath(decode(rs[j].payload)) == Some(name)
    else name == (if rs[i].prefix == [] then "" else Latin1(rs[i].prefix) + "/") + Latin1(rs[i].name)
  }

  /** The name under which the reader stores record i: the given one, without
      one leading `./`. */
  lemma NameMeaning(rs: seq<Record>, i: nat, decode: seq<byte> -> string, given: string)
    requires Given(rs, i, decode, given)
    ensures forall p :: given == "./" + p ==> NameAt(rs, i, decode, false) == p
    ensures (forall p :: given != "./" + p) ==> NameAt(rs, i, decode, false) == given
  {
    hide Given, NameAt, DropDotSlash;
    NameIsGiven(rs, i, decode, given);
    Dropped(given);
    assert |given| >= 2 && given[0] == '.' && given[1] == '/' ==> given == "./" + given[2..];
  }

  lemma NameIsGiven(rs: seq<Record>, i: nat, decode: seq<byte> -> string, given: string)
    requires Given(rs, i, decode, given)
    ensures NameAt(rs, i, decode, false) == DropDotSlash(given)
  {
    hide PaxPath, StripNuls, PendingAt, LongNameFor, PathFor, DropDotSlash;
    LongNameMeaning(rs, i, decode);
    PathMeaning(rs, i, decode);
    HeaderName(rs[i]);
  }

  lemma HeaderName(r: Record)
    ensures var h := HeaderOf(r);
      (if h.prefix != "" then h.prefix + "/" + h.name else h.name)
      == (if r.prefix == [] then "" else Latin1(r.prefix) + "/") + Latin1(r.name)
  {
    assert Latin1(r.prefix) == "" <==> r.prefix == [];
  }

  /** The files that the reader returns: every record that is a file, in order,
      under its name; nothing when one is too large. */
  lemma ArchiveMeaning(rs: seq<Record>, trailer: seq<byte>, max: int, decode: seq<byte> -> string)
    requires AllWellFormed(rs) && EndsArchive(trailer)
    ensures var files := Outcome(Bytes(rs) + trailer, max, decode, 0, NOTHING, map[]);
      && (files == None <==> exists i :: 0 <= i < |rs| && IsFile(rs[i]) && |rs[i].payload| > max)
      && (files.Some? ==> files == Some(PutAll(FilesOf(rs, |rs|, decode, false))))
  {
    hide Outcome, Bytes, AllWellFormed, Meaning, FilesOf, PutAll;
    assert AtEnd(trailer, 0);
    RecordsOutcome([], rs, trailer, max, decode, NOTHING, map[]);
    assert [] + Bytes(rs) + trailer == Bytes(rs) + trailer;
    assert Fits(rs, max) <==> !exists i :: 0 <= i < |rs| && IsFile(rs[i]) && |rs[i].payload| > max;
    if Fits(rs, max) {
      StoredInOrder(rs, max, decode);
    } else {
      TooLarge(rs, 0, max, decode, NOTHING, map[]);
      assert rs[0..] == rs;
    }
  }

  lemma {:induction false} TooLarge(rs: seq<Record>, k: nat, max: int, decode: seq<byte> -> string, pending: Pending,
                                    files: map<string, seq<byte>>)
    requires k <= |rs| && exists i :: k <= i < |rs| && IsRegular(rs[i].kind) && |rs[i].payload| > max
    ensures Meaning(rs[k..], max, decode, pending, files) == None
    decreases |rs| - k
  {
    hide EntryName, NextPending;
    var r := rs[k];
    assert rs[k..][0] == r && rs[k..][1..] == rs[k + 1..];
    if !IsRegular(r.kind) {
      TooLarge(rs, k + 1, max, decode, NextPending(r.kind, r.payload, decode, pending), files);
    } else if |r.payload| <= max {
      TooLarge(rs, k + 1, max, decode, NOTHING, files[EntryName(HeaderOf(r), pending) := r.payload]);
    }
  }

  /** Which records FilesOf lists. */
  lemma {:induction false} FilesListed(rs: seq<Record>, k: nat, decode: seq<byte> -> string, f: (string, seq<byte>))
    requires k <= |rs|
    ensures f in FilesOf(rs, k, decode, false) <==>
      exists i :: 0 <= i < k && IsFile(rs[i]) && f == (NameAt(rs, i, decode, false), rs[i].payload)
  {
    hide NameAt;
    if k > 0 {
      FilesListed(rs, k - 1, decode, f);
    }
  }

  // ---------------------------------------------------------------------
  // Any bytes at all
  // ---------------------------------------------------------------------

  /** Less than a block is left, or a block of zeros comes next. */
  ghost predicate NothingLeft(plain: seq<byte>, offset: nat) {
    |plain| < offset + 512 || forall i :: offset <= i < offset + 512 ==> plain[i] == 0
  }

  /** The size field of the header at offset: what stands before its first NUL. */
  ghost function SizeAt(plain: seq<byte>, offset: nat): Option<int>
    requires offset + 512 <= |plain|
  {
    ParseOctal(Trim(Latin1(UntilNul(plain[offset + 124..offset + 136]))))
  }

  /** The header has no proper size, the payload is cut short, or a file is
      too large. */
  ghost predicate Unreadable(plain: seq<byte>, max: int, offset: nat)
    requires offset + 512 <= |plain|
  {
    || SizeAt(plain, offset).None? || SizeAt(plain, offset).value < 0
    || offset + 512 + SizeAt(plain, offset).value > |plain|
    || (plain[offset + 156] in {0x30, 0, 0x37} && SizeAt(plain, offset).value > max)
  }

  /** One turn of the reader on any bytes. */
  lemma StepMeaning(plain: seq<byte>, max: int, decode: seq<byte> -> string, offset: nat, pending: Pending)
    ensures var s := ReadStep(plain, max, decode, offset, pending);
      && (s.Stop? <==> NothingLeft(plain, offset))
      && (s.Refuse? <==> !NothingLeft(plain, offset) && Unreadable(plain, max, offset))
      && (s.Take? || s.Skip? ==>
            s.next % 512 == offset % 512 && SizeAt(plain, offset).Some?
            && 0 <= s.next - (offset + 512) - SizeAt(plain, offset).value < 512)
      && (s.Take? <==>
            !NothingLeft(plain, offset) && !Unreadable(plain, max, offset) && plain[offset + 156] in {0x30, 0, 0x37})
  {
    hide ParseOctal, Trim, UntilNul, NextPending, EntryName, NothingLeft, AtEnd, ReadHeader, Latin1;
    EndMeaning(plain, offset);
    if offset + 512 <= |plain| {
      HeaderMeaning(plain, offset);
    }
  }

  lemma EndMeaning(plain: seq<byte>, offset: nat)
    ensures AtEnd(plain, offset) <==> NothingLeft(plain, offset)
    ensures !NothingLeft(plain, offset) ==> offset + 512 <= |plain|
  {
    if offset + 512 <= |plain| {
      var block := plain[offset..offset + 512];
      assert forall i :: offset <= i < offset + 512 ==> plain[i] == block[i - offset];
      assert forall i :: 0 <= i < 512 ==> block[i] == plain[offset + i];
    }
  }

  lemma HeaderMeaning(plain: seq<byte>, offset: nat)
    requires offset + 512 <= |plain|
    ensures var h, size := ReadHeader(plain[offset..offset + 512]), SizeAt(plain, offset);
      && (h == None <==> size == None || size.value < 0)
      && (h.Some? ==> Some(h.value.size) == size && h.value.kind == plain[offset + 156])
  {
    hide ParseOctal, Trim, UntilNul, Latin1;
    var block := plain[offset..offset + 512];
    var field, there := block[124..136], plain[offset + 124..offset + 136];
    assert forall i :: 0 <= i < 12 ==> field[i] == block[124 + i] == plain[offset + (124 + i)] == there[i];
    assert field == there;
    assert block[156] == plain[offset + 156];
  }

  /** A run of the reader: each position follows from the one before. */
  ghost predicate IsRun(plain: seq<byte>, max: int, decode: seq<byte> -> string, run: seq<(nat, Pending)>) {
    run != [] && forall k :: 0 < k < |run| ==> Follows(plain, max, decode, run[k - 1], run[k])
  }

  ghost predicate Follows(plain: seq<byte>, max: int, decode: seq<byte> -> string, a: (nat, Pending), b: (nat, Pending)) {
    match ReadStep(plain, max, decode, a.0, a.1)
    case Skip(next, pending) => b == (next, pending)
    case Take(next, _) => b == (next, NOTHING)
    case _ => false
  }

  ghost predicate RunsInto(plain: seq<byte>, max: int, decode: seq<byte> -> string, start: (nat, Pending), end: (nat, Pending)) {
    exists run :: IsRun(plain, max, decode, run) && run[0] == start && run[|run| - 1] == end
  }

  /** The reader refuses an archive exactly when it runs into something
      unreadable before the end. */
  lemma {:induction false} RefusedIff(plain: seq<byte>, max: int, decode: seq<byte> -> string, offset: nat, pending: Pending)
    ensures Walk(plain, max, decode, offset, pending) == None <==>
      exists end :: RunsInto(plain, max, decode, (offset, pending), end)
        && !NothingLeft(plain, end.0) && Unreadable(plain, max, end.0)
    decreases |plain| - offset
  {
    hide NothingLeft, Unreadable, ReadStep;
    StepMeaning(plain, max, decode, offset, pending);
    var start := (offset, pending);
    RunHere(plain, max, decode, start);
    match ReadStep(plain, max, decode, offset, pending)
    case Stop => RunStuck(plain, max, decode, start);
    case Refuse => RunStuck(plain, max, decode, start);
    case Skip(next, pending') =>
      RefusedIff(plain, max, decode, next, pending');
      RunOn(plain, max, decode, start, (next, pending'));
    case Take(next, _) =>
      RefusedIff(plain, max, decode, next, NOTHING);
      RunOn(plain, max, decode, start, (next, NOTHING));
  }

  lemma RunHere(plain: seq<byte>, max: int, decode: seq<byte> -> string, start: (nat, Pending))
    ensures RunsInto(plain, max, decode, start, start)
  {
    assert IsRun(plain, max, decode, [start]) && [start][0] == start && [start][|[start]| - 1] == start;
  }

  lemma RunStuck(plain: seq<byte>, max: int, decode: seq<byte> -> string, start: (nat, Pending))
    requires ReadStep(plain, max, decode, start.0, start.1).Stop? || ReadStep(plain, max, decode, start.0, start.1).Refuse?
    ensures forall end :: RunsInto(plain, max, decode, start, end) ==> end == start
  {
    hide ReadStep;
    forall end | RunsInto(plain, max, decode, start, end)
      ensures end == start
    {
      var run :| IsRun(plain, max, decode, run) && run[0] == start && run[|run| - 1] == end;
      var one := 1;
      assert |run| == 1 || Follows(plain, max, decode, run[one - 1], run[one]);
    }
  }

  lemma RunOn(plain: seq<byte>, max: int, decode: seq<byte> -> string, start: (nat, Pending), next: (nat, Pending))
    requires Follows(plain, max, decode, start, next)
    ensures forall end ::
      RunsInto(plain, max, decode, start, end) <==> end == start || RunsInto(plain, max, decode, next, end)
  {
    hide ReadStep;
    RunHere(plain, max, decode, start);
    forall end | RunsInto(plain, max, decode, next, end)
      ensures RunsInto(plain, max, decode, start, end)
    {
      var run :| IsRun(plain, max, decode, run) && run[0] == next && run[|run| - 1] == end;
      var longer := [start] + run;
      assert forall k :: 0 < k < |longer| ==> longer[k] == run[k - 1];
      assert IsRun(plain, max, decode, longer) && longer[0] == start && longer[|longer| - 1] == end;
    }
    forall end | RunsInto(plain, max, decode, start, end) && end != start
      ensures RunsInto(plain, max, decode, next, end)
    {
      var run :| IsRun(plain, max, decode, run) && run[0] == start && run[|run| - 1] == end;
      var one, rest := 1, run[1..];
      assert Follows(plain, max, decode, run[one - 1], run[one]);
      assert run[1] == next;
      assert forall k :: 0 < k < |rest| ==> rest[k] == run[k + 1] && rest[k - 1] == run[k];
      assert IsRun(plain, max, decode, rest) && rest[0] == next && rest[|rest| - 1] == end;
    }
  }
}
