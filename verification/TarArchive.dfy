/** A specification-level archive writer in the ustar and pax interchange
    formats, and the proof that the tar reader inverts it. */
module TarArchive {
  import opened Text
  import opened Tar
  import opened PaxHeader

  // ---------------------------------------------------------------------
  // Writing one record
  // ---------------------------------------------------------------------

  /** One header block with its payload. `other` supplies every header byte
      outside the four fields (mode, owner, time, checksum, magic, ...) and
      `slack` the bytes that fill the last payload block: both arbitrary. */
  datatype Record = Record(name: seq<byte>, prefix: seq<byte>, kind: byte, payload: seq<byte>,
                           other: seq<byte>, slack: seq<byte>)

  /** The exclusive bound of an 11-digit octal size field. */
  const SIZE_LIMIT: nat := 0x2_0000_0000

  predicate WellFormed(r: Record) {
    && |r.name| <= 100 && 0 !in r.name
    && |r.prefix| <= 155 && 0 !in r.prefix
    && |r.payload| < SIZE_LIMIT
    && |r.other| == BLOCK
    && |r.slack| == Padded(|r.payload|) - |r.payload|
  }

  function Fill(bytes: seq<byte>, width: nat): (r: seq<byte>)
    requires |bytes| <= width
    ensures |r| == width
  {
    bytes + seq(width - |bytes|, _ => 0)
  }

  function Pow8(k: nat): nat {
    if k == 0 then 1 else 8 * Pow8(k - 1)
  }

  lemma {:induction false} NumeralWidth(n: nat, k: nat)
    requires k > 0 && n < Pow8(k)
    ensures |Numeral(n, 8)| <= k
    decreases k
  {
    if n >= 8 {
      assert Pow8(1) == 8;
      assert Pow8(k) == 8 * Pow8(k - 1);
      NumeralWidth(n / 8, k - 1);
    }
  }

  lemma SizeLimit()
    ensures Pow8(11) == SIZE_LIMIT
  {
    assert Pow8(4) == 8 * 8 * 8 * 8;
    assert Pow8(8) == 8 * 8 * 8 * 8 * Pow8(4);
  }

  lemma {:induction false} LeadingZeros(zeros: string, s: string)
    requires Digits(s, 8) && forall i :: 0 <= i < |zeros| ==> zeros[i] == '0'
    ensures Digits(zeros + s, 8) && Value(zeros + s, 8) == Value(s, 8)
    decreases |s|, |zeros|
  {
    var t := zeros + s;
    if s != "" {
      LeadingZeros(zeros, s[..|s| - 1]);
      assert t[..|t| - 1] == zeros + s[..|s| - 1];
    } else if zeros != "" {
      LeadingZeros(zeros[..|zeros| - 1], s);
      assert t[..|t| - 1] == zeros[..|zeros| - 1] + s;
    }
  }

  /** Eleven octal digits, padded with zeros on the left. */
  function OctalDigits(n: nat): (s: string)
    requires n < SIZE_LIMIT
    ensures |s| == 11 && Digits(s, 8) && Value(s, 8) == n
  {
    SizeLimit();
    NumeralWidth(n, 11);
    NumeralValue(n, 8);
    var zeros := seq(11 - |Numeral(n, 8)|, _ => '0');
    LeadingZeros(zeros, Numeral(n, 8));
    zeros + Numeral(n, 8)
  }

  function SizeField(n: nat): (r: seq<byte>)
    requires n < SIZE_LIMIT
    ensures |r| == 12
  {
    var s := OctalDigits(n);
    seq(11, i requires 0 <= i < 11 => s[i] as int) + [0]
  }

  function HeaderBlock(r: Record): (block: seq<byte>)
    requires WellFormed(r)
    ensures |block| == BLOCK
  {
    var name, size, prefix := Fill(r.name, 100), SizeField(|r.payload|), Fill(r.prefix, 155);
    name + r.other[100..124] + size + r.other[136..156] + [r.kind]
    + r.other[157..345] + prefix + r.other[500..]
  }

  function RecordBytes(r: Record): (bytes: seq<byte>)
    requires WellFormed(r)
    ensures |bytes| == BLOCK + Padded(|r.payload|)
  {
    HeaderBlock(r) + r.payload + r.slack
  }

  // ---------------------------------------------------------------------
  // Reading one record back
  // ---------------------------------------------------------------------

  lemma FilledField(bytes: seq<byte>, width: nat)
    requires |bytes| <= width && 0 !in bytes
    ensures UntilNul(Fill(bytes, width)) == bytes
  {
    var f := Fill(bytes, width);
    assert f[..|bytes|] == bytes;
    UntilNulAt(f, |bytes|);
  }

  lemma SizeFieldText(n: nat)
    requires n < SIZE_LIMIT
    ensures Latin1(UntilNul(SizeField(n))) == OctalDigits(n)
  {
    var f := SizeField(n);
    assert forall i :: 0 <= i < 11 ==> f[i] == OctalDigits(n)[i] as int;
    UntilNulAt(f, 11);
    assert Latin1(f[..11]) == OctalDigits(n);
  }

  lemma SizeFieldParses(n: nat)
    requires n < SIZE_LIMIT
    ensures ParseOctal(Trim(Latin1(UntilNul(SizeField(n))))) == Some(n)
  {
    hide SizeField, OctalDigits, Latin1, Trim, TakeDigits, Value;
    SizeFieldText(n);
    var s := OctalDigits(n);
    assert IsDigit(s[0], 8) && IsDigit(s[10], 8);
    TrimmedStays(s);
    TakeDigitsExact(s, "", 8);
    assert s + "" == s;
  }

  lemma HeaderFields(r: Record)
    requires WellFormed(r)
    ensures var b := HeaderBlock(r);
      && b[0..100] == Fill(r.name, 100) && b[124..136] == SizeField(|r.payload|)
      && b[156] == r.kind && b[345..500] == Fill(r.prefix, 155)
      && b[124] != 0
  {
    hide Fill, Padded;
    var b := HeaderBlock(r);
    var size := SizeField(|r.payload|);
    assert b[124..136] == size;
    assert b[124] == size[0];
    assert IsDigit(OctalDigits(|r.payload|)[0], 8);
  }

  function HeaderOf(r: Record): Header {
    Header(Latin1(r.name), |r.payload|, r.kind, Latin1(r.prefix))
  }

  /** The header fields survive the trip through a header block. */
  lemma HeaderRoundTrip(r: Record)
    requires WellFormed(r)
    ensures ReadHeader(HeaderBlock(r)) == Some(HeaderOf(r)) && !AllZero(HeaderBlock(r))
  {
    hide HeaderBlock, Fill, SizeField, ParseOctal, Trim;
    HeaderFields(r);
    FilledField(r.name, 100);
    FilledField(r.prefix, 155);
    SizeFieldParses(|r.payload|);
  }

  /** What the reader should do on a record, said without any bytes. */
  function Effect(r: Record, max: int, decode: seq<byte> -> string, offset: nat, pending: Pending): Step {
    var next := offset + BLOCK + Padded(|r.payload|);
    if !IsRegular(r.kind) then Skip(next, NextPending(r.kind, r.payload, decode, pending))
    else if |r.payload| > max then Refuse
    else Take(next, Entry(EntryName(HeaderOf(r), pending), offset + BLOCK, |r.payload|))
  }

  lemma StepOnRecord(pre: seq<byte>, r: Record, rest: seq<byte>, max: int, decode: seq<byte> -> string, pending: Pending)
    requires WellFormed(r)
    ensures ReadStep(pre + RecordBytes(r) + rest, max, decode, |pre|, pending) == Effect(r, max, decode, |pre|, pending)
    ensures (pre + RecordBytes(r) + rest)[|pre| + BLOCK..|pre| + BLOCK + |r.payload|] == r.payload
  {
    hide HeaderBlock, ReadHeader, NextPending, EntryName;
    var plain := pre + RecordBytes(r) + rest;
    assert plain[|pre|..|pre| + BLOCK] == HeaderBlock(r);
    HeaderRoundTrip(r);
    assert plain[|pre| + BLOCK..|pre| + BLOCK + |r.payload|] == r.payload;
  }

  // ---------------------------------------------------------------------
  // Reading a list of records back
  // ---------------------------------------------------------------------

  predicate AllWellFormed(rs: seq<Record>) {
    forall i :: 0 <= i < |rs| ==> WellFormed(rs[i])
  }

  function Bytes(rs: seq<Record>): seq<byte>
    requires AllWellFormed(rs)
  {
    if rs == [] then [] else RecordBytes(rs[0]) + Bytes(rs[1..])
  }

  /** Less than a block, or a block of zeros first. */
  ghost predicate EndsArchive(trailer: seq<byte>) {
    |trailer| < 512 || forall i :: 0 <= i < 512 ==> trailer[i] == 0
  }

  /** What a list of records means to the reader, said without any bytes: an
      override waits for the next regular file, across records of other types. */
  function Meaning(rs: seq<Record>, max: int, decode: seq<byte> -> string, pending: Pending,
                   files: map<string, seq<byte>>): Option<map<string, seq<byte>>>
  {
    if rs == [] then Some(files)
    else if !IsRegular(rs[0].kind) then
      Meaning(rs[1..], max, decode, NextPending(rs[0].kind, rs[0].payload, decode, pending), files)
    else if |rs[0].payload| > max then None
    else Meaning(rs[1..], max, decode, NOTHING, files[EntryName(HeaderOf(rs[0]), pending) := rs[0].payload])
  }

  /** Every list of records, ended by a zero block or by less than a block, is
      read as what it means. */
  lemma {:induction false} RecordsOutcome(pre: seq<byte>, rs: seq<Record>, trailer: seq<byte>, max: int,
                                          decode: seq<byte> -> string, pending: Pending, files: map<string, seq<byte>>)
    requires AllWellFormed(rs) && EndsArchive(trailer)
    ensures Outcome(pre + Bytes(rs) + trailer, max, decode, |pre|, pending, files)
         == Meaning(rs, max, decode, pending, files)
    decreases |rs|
  {
    hide Outcome, ReadStep, RecordBytes, WellFormed, EntryName, NextPending;
    var plain := pre + Bytes(rs) + trailer;
    OutcomeStep(plain, max, decode, |pre|, pending, files);
    if rs == [] {
      assert plain == pre + trailer;
      assert forall k :: 0 <= k < |trailer| ==> plain[|pre| + k] == trailer[k];
      EndStops(plain, |pre|, max, decode, pending);
    } else {
      var r, rest := rs[0], Bytes(rs[1..]);
      assert WellFormed(r) && AllWellFormed(rs[1..]);
      assert plain == pre + RecordBytes(r) + (rest + trailer);
      StepOnRecord(pre, r, rest + trailer, max, decode, pending);
      var next := pre + RecordBytes(r);
      assert plain == next + rest + trailer;
      if !IsRegular(r.kind) {
        RecordsOutcome(next, rs[1..], trailer, max, decode, NextPending(r.kind, r.payload, decode, pending), files);
      } else if |r.payload| <= max {
        RecordsOutcome(next, rs[1..], trailer, max, decode, NOTHING,
                       files[EntryName(HeaderOf(r), pending) := r.payload]);
      }
    }
  }

  lemma EndStops(plain: seq<byte>, offset: nat, max: int, decode: seq<byte> -> string, pending: Pending)
    requires AtEnd(plain, offset)
    ensures ReadStep(plain, max, decode, offset, pending) == Stop
  {
  }

  // ---------------------------------------------------------------------
  // Long names
  // ---------------------------------------------------------------------

  function Nuls(n: nat): (s: string) {
    seq(n, _ => '\0')
  }

  lemma {:induction false} StripNulsExact(s: string, n: nat)
    requires s != "" ==> s[|s| - 1] != '\0'
    ensures StripNuls(s + Nuls(n)) == s
  {
    if n == 0 {
      assert s + Nuls(0) == s;
    } else {
      var t := s + Nuls(n);
      assert t[..|t| - 1] == s + Nuls(n - 1);
      StripNulsExact(s, n - 1);
    }
  }

  // ---------------------------------------------------------------------
  // Members
  // ---------------------------------------------------------------------

  /** What an archive holds: a regular file named by its own header; one named
      by an override record before it, with records that carry no file (a
      directory, a link, a global header) possibly between the two; or such a
      record on its own. */
  datatype Member =
    | Plain(file: Record)
    | LongNamed(path: string, nuls: nat, over: Record, between: seq<Record>, file: Record)
    | PaxNamed(path: string, length: string, before: seq<PaxRecord>, after: string,
               over: Record, between: seq<Record>, file: Record)
    | Ignored(rec: Record)

  function RecordsOf(m: Member): seq<Record> {
    if m.Plain? then [m.file]
    else if m.Ignored? then [m.rec]
    else [m.over] + m.between + [m.file]
  }

  predicate CarriesNothing(r: Record) {
    !IsRegular(r.kind) && !IsPax(r.kind) && r.kind != LONG_NAME
  }

  predicate RegularFile(r: Record, max: int) {
    r.kind in {'0' as int, 0, '7' as int} && |r.payload| <= max
  }

  /** The records have the right types and the override decodes to the path,
      which is newline-free and has no other path line before it. */
  predicate MemberOk(m: Member, max: int, decode: seq<byte> -> string) {
    match m
    case Plain(file) => RegularFile(file, max)
    case LongNamed(path, nuls, over, between, file) =>
      && RegularFile(file, max) && over.kind == 'L' as int
      && (forall i :: 0 <= i < |between| ==> CarriesNothing(between[i]))
      && decode(over.payload) == path + Nuls(nuls)
      && (path != "" ==> path[|path| - 1] != '\0')
    case PaxNamed(path, length, before, after, over, between, file) =>
      && RegularFile(file, max) && over.kind in {'x' as int, 'X' as int}
      && (forall i :: 0 <= i < |between| ==> CarriesNothing(between[i]))
      && PaxOk(PaxRecord(length, "path", path)) && '\n' !in path
      && AllPaxOk(before) && NoPath(before) && (StrayPath(before) == None || StrayPath(before) == Some(path))
      && decode(over.payload) == PaxText(before) + PaxLineText(PaxRecord(length, "path", path)) + "\n" + after
    case Ignored(rec) => CarriesNothing(rec)
  }

  /** The name that a member is given, by an override or by its own header. */
  function GivenName(m: Member): string
    requires !m.Ignored?
  {
    if !m.Plain? then m.path
    else if m.file.prefix != [] then Latin1(m.file.prefix) + "/" + Latin1(m.file.name)
    else Latin1(m.file.name)
  }

  /** The name under which the reader stores the file: the given one without
      one leading `./`. With no other file between the two it is also the name
      that the format gives it. */
  function MemberPath(m: Member): string
    requires !m.Ignored?
  {
    var name := GivenName(m);
    if |name| >= 2 && name[0] == '.' && name[1] == '/' then name[2..] else name
  }

  lemma MemberPathMeaning(m: Member)
    requires !m.Ignored?
    ensures forall p :: GivenName(m) == "./" + p ==> MemberPath(m) == p
    ensures (forall p :: GivenName(m) != "./" + p) ==> MemberPath(m) == GivenName(m)
  {
    hide GivenName;
    var name := GivenName(m);
    assert |name| >= 2 && name[0] == '.' && name[1] == '/' ==> name == "./" + name[2..];
  }

  predicate AllOk(ms: seq<Member>, max: int, decode: seq<byte> -> string) {
    forall i :: 0 <= i < |ms| ==> MemberOk(ms[i], max, decode)
  }

  function Records(ms: seq<Member>): seq<Record> {
    if ms == [] then [] else RecordsOf(ms[0]) + Records(ms[1..])
  }

  /** The files in order of appearance, later ones replacing earlier ones. */
  function Contents(ms: seq<Member>, files: map<string, seq<byte>>): map<string, seq<byte>> {
    if ms == [] then files
    else if ms[0].Ignored? then Contents(ms[1..], files)
    else Contents(ms[1..], files[MemberPath(ms[0]) := ms[0].file.payload])
  }

  lemma Dropped(name: string)
    ensures DropDotSlash(name) == if |name| >= 2 && name[0] == '.' && name[1] == '/' then name[2..] else name
  {
    assert "./" <= name <==> |name| >= 2 && name[0] == '.' && name[1] == '/';
  }

  lemma PlainName(file: Record)
    ensures EntryName(HeaderOf(file), NOTHING) == MemberPath(Plain(file))
  {
    assert Latin1(file.prefix) == "" <==> file.prefix == [];
    Dropped(GivenName(Plain(file)));
  }

  /** The override read back from its payload names the file that follows it. */
  lemma OverrideName(m: Member, max: int, decode: seq<byte> -> string)
    requires MemberOk(m, max, decode) && (m.LongNamed? || m.PaxNamed?)
    ensures EntryName(HeaderOf(m.file), NextPending(m.over.kind, m.over.payload, decode, NOTHING)) == MemberPath(m)
  {
    hide PaxPath, PaxText, PaxLineText, PaxOk, NoPath, StrayPath, StripNuls;
    Dropped(m.path);
    if m.LongNamed? {
      StripNulsExact(m.path, m.nuls);
    } else {
      PaxPathFinds(m.before, PaxRecord(m.length, "path", m.path), m.after);
    }
  }

  lemma {:induction false} MeaningSkips(rs: seq<Record>, rest: seq<Record>, max: int, decode: seq<byte> -> string,
                                        pending: Pending, files: map<string, seq<byte>>)
    requires forall i :: 0 <= i < |rs| ==> CarriesNothing(rs[i])
    ensures Meaning(rs + rest, max, decode, pending, files) == Meaning(rest, max, decode, pending, files)
    decreases |rs|
  {
    if rs == [] {
      assert rs + rest == rest;
    } else {
      assert (rs + rest)[1..] == rs[1..] + rest;
      assert CarriesNothing(rs[0]);
      MeaningSkips(rs[1..], rest, max, decode, pending, files);
    }
  }

  /** One member means one stored file (or none), with nothing left pending. */
  lemma MemberMeaning(m: Member, rest: seq<Record>, max: int, decode: seq<byte> -> string, files: map<string, seq<byte>>)
    requires MemberOk(m, max, decode)
    ensures Meaning(RecordsOf(m) + rest, max, decode, NOTHING, files)
         == Meaning(rest, max, decode, NOTHING, if m.Ignored? then files else files[MemberPath(m) := m.file.payload])
  {
    hide EntryName, MemberPath, PaxPath, PaxText, PaxLineText, PaxOk;
    var rs := RecordsOf(m) + rest;
    if m.Plain? {
      assert rs[1..] == rest;
      PlainName(m.file);
    } else if m.Ignored? {
      assert rs[1..] == rest;
    } else {
      OverrideMeaning(m, rest, max, decode, files);
    }
  }

  lemma OverrideMeaning(m: Member, rest: seq<Record>, max: int, decode: seq<byte> -> string, files: map<string, seq<byte>>)
    requires MemberOk(m, max, decode) && (m.LongNamed? || m.PaxNamed?)
    ensures Meaning(RecordsOf(m) + rest, max, decode, NOTHING, files)
         == Meaning(rest, max, decode, NOTHING, files[MemberPath(m) := m.file.payload])
  {
    hide EntryName, MemberPath, NextPending, PaxPath, PaxText, PaxLineText, PaxOk, Meaning;
    OverrideRun(m.over, m.between, m.file, rest, max, decode, files);
    OverrideName(m, max, decode);
  }

  lemma OverrideRun(over: Record, between: seq<Record>, file: Record, rest: seq<Record>, max: int,
                    decode: seq<byte> -> string, files: map<string, seq<byte>>)
    requires !IsRegular(over.kind) && RegularFile(file, max)
    requires forall i :: 0 <= i < |between| ==> CarriesNothing(between[i])
    ensures Meaning([over] + between + [file] + rest, max, decode, NOTHING, files)
         == Meaning(rest, max, decode, NOTHING,
                    files[EntryName(HeaderOf(file), NextPending(over.kind, over.payload, decode, NOTHING)) := file.payload])
  {
    hide EntryName, NextPending, CarriesNothing;
    var rs := [over] + between + [file] + rest;
    assert rs[1..] == between + ([file] + rest);
    MeaningSkips(between, [file] + rest, max, decode, NextPending(over.kind, over.payload, decode, NOTHING), files);
    assert ([file] + rest)[1..] == rest;
  }

  lemma {:induction false} MembersMeaning(ms: seq<Member>, max: int, decode: seq<byte> -> string,
                                          files: map<string, seq<byte>>)
    requires AllOk(ms, max, decode)
    ensures Meaning(Records(ms), max, decode, NOTHING, files) == Some(Contents(ms, files))
    decreases |ms|
  {
    hide MemberOk, MemberPath, RecordsOf;
    if ms != [] {
      var m := ms[0];
      assert MemberOk(m, max, decode);
      MemberMeaning(m, Records(ms[1..]), max, decode, files);
      MembersMeaning(ms[1..], max, decode,
                     if m.Ignored? then files else files[MemberPath(m) := m.file.payload]);
    }
  }

  /** Round trip: the reader returns exactly the files of every archive that
      ends in a zero block (or in less than a block), last one winning. */
  lemma RoundTrip(ms: seq<Member>, trailer: seq<byte>, max: int, decode: seq<byte> -> string)
    requires AllWellFormed(Records(ms)) && AllOk(ms, max, decode) && EndsArchive(trailer)
    ensures Outcome(Bytes(Records(ms)) + trailer, max, decode, 0, NOTHING, map[]) == Some(Contents(ms, map[]))
  {
    hide Outcome, AllOk, Bytes, Contents, Meaning, AllWellFormed, Records;
    RecordsOutcome([], Records(ms), trailer, max, decode, NOTHING, map[]);
    assert [] + Bytes(Records(ms)) + trailer == Bytes(Records(ms)) + trailer;
    MembersMeaning(ms, max, decode, map[]);
  }

  /** Contents holds, for every path, the payload of the last member with it. */
  lemma {:induction false} LastWins(ms: seq<Member>, files: map<string, seq<byte>>, path: string, k: nat)
    requires k < |ms| && !ms[k].Ignored? && MemberPath(ms[k]) == path
    requires forall j :: k < j < |ms| ==> ms[j].Ignored? || MemberPath(ms[j]) != path
    ensures path in Contents(ms, files) && Contents(ms, files)[path] == ms[k].file.payload
  {
    hide MemberPath;
    var files' := if ms[0].Ignored? then files else files[MemberPath(ms[0]) := ms[0].file.payload];
    if k == 0 {
      Untouched(ms[1..], files', path);
    } else {
      LastWins(ms[1..], files', path, k - 1);
    }
  }

  lemma {:induction false} Untouched(ms: seq<Member>, files: map<string, seq<byte>>, path: string)
    requires forall j :: 0 <= j < |ms| ==> ms[j].Ignored? || MemberPath(ms[j]) != path
    ensures path in Contents(ms, files) <==> path in files
    ensures path in files ==> Contents(ms, files)[path] == files[path]
  {
    hide MemberPath;
    if ms != [] {
      Untouched(ms[1..], if ms[0].Ignored? then files else files[MemberPath(ms[0]) := ms[0].file.payload], path);
    }
  }

  /** What the reader returns for a name: the payload of the last member that is
      given this name, with or without a leading `./`. */
  lemma FoundUnder(ms: seq<Member>, trailer: seq<byte>, max: int, decode: seq<byte> -> string, k: nat, p: string)
    requires AllWellFormed(Records(ms)) && AllOk(ms, max, decode) && EndsArchive(trailer)
    requires k < |ms| && !ms[k].Ignored?
    requires GivenName(ms[k]) == "./" + p || (GivenName(ms[k]) == p && forall q :: p != "./" + q)
    requires forall j :: k < j < |ms| ==> ms[j].Ignored? || MemberPath(ms[j]) != p
    ensures var files := Outcome(Bytes(Records(ms)) + trailer, max, decode, 0, NOTHING, map[]);
      files.Some? && p in files.value && files.value[p] == ms[k].file.payload
  {
    hide Outcome, AllOk, Bytes, Contents, AllWellFormed, Records, GivenName;
    RoundTrip(ms, trailer, max, decode);
    MemberPathMeaning(ms[k]);
    hide MemberPath;
    LastWins(ms, map[], p, k);
  }
}
