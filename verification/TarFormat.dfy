/** Where the tar reader departs from the interchange format: in the format an
    override names the next file of the archive, whatever its type; the reader
    lets it wait for the next regular file. */
module TarFormat {
  import opened Text
  import opened Tar
  import opened PaxHeader
  import opened TarArchive

  const GLOBAL: byte := 'g' as int
  const LONG_LINK: byte := 'K' as int

  predicate IsOverride(r: Record) {
    r.kind == LONG_NAME || IsPax(r.kind)
  }

  /** A directory, link, device and the like: a file of the archive, but not one
      the reader returns. Global headers and GNU long-link headers, which are
      about other records, are no files. */
  predicate IsOtherFile(r: Record) {
    CarriesNothing(r) && r.kind != GLOBAL && r.kind != LONG_LINK
  }

  /** Which names the files of a list of records have in the format: every
      file uses up the override before it. */
  function Intended(rs: seq<Record>, max: int, decode: seq<byte> -> string, pending: Pending,
                    files: map<string, seq<byte>>): Option<map<string, seq<byte>>>
  {
    if rs == [] then Some(files)
    else if IsOtherFile(rs[0]) then Intended(rs[1..], max, decode, NOTHING, files)
    else if !IsRegular(rs[0].kind) then
      Intended(rs[1..], max, decode, NextPending(rs[0].kind, rs[0].payload, decode, pending), files)
    else if |rs[0].payload| > max then None
    else Intended(rs[1..], max, decode, NOTHING, files[EntryName(HeaderOf(rs[0]), pending) := rs[0].payload])
  }

  // ---------------------------------------------------------------------
  // An archive that is read differently
  // ---------------------------------------------------------------------

  function Ascii(s: string): (bytes: seq<byte>)
    requires forall i :: 0 <= i < |s| ==> s[i] < 128 as char
    ensures |bytes| == |s|
  {
    seq(|s|, i requires 0 <= i < |s| => s[i] as int)
  }

  function NewRecord(name: string, kind: byte, payload: string): Record
    requires forall i :: 0 <= i < |name| ==> name[i] < 128 as char
    requires forall i :: 0 <= i < |payload| ==> payload[i] < 128 as char
  {
    Record(Ascii(name), [], kind, Ascii(payload), seq(BLOCK, _ => 0), seq(Padded(|payload|) - |payload|, _ => 0))
  }

  const DIRECTORY: byte := '5' as int
  const LEAK_HEADER := "12 path=dir\n"

  /** A pax path for a directory, the directory, and a file with its own name. */
  const LEAK: seq<Record> :=
    [NewRecord("p", 'x' as int, LEAK_HEADER), NewRecord("d", DIRECTORY, ""), NewRecord("f", '0' as int, "")]

  lemma LeakText()
    ensures var p := PaxRecord("12", "path", "dir"); PaxOk(p) && Measured(p) && PaxText([p]) == LEAK_HEADER
  {
    hide PaxPath, PaxLine, IndexOf;
    var p := PaxRecord("12", "path", "dir");
    assert Numeral(1, 10) == "1" && Numeral(12, 10) == "12";
    assert PaxText([]) == "";
    assert PaxLineText(p) == "12 path=dir";
    assert PaxText([p]) == PaxLineText(p) + "\n" + "";
  }

  lemma LeakHeader()
    ensures PaxPath(LEAK_HEADER) == Some("dir")
  {
    hide PaxPath, PaxText, Measured, PaxOk, Cut;
    LeakText();
    PaxPathTaken([PaxRecord("12", "path", "dir")]);
    CutStays("dir");
  }

  lemma LeakNames(pending: Pending)
    requires pending == Pending(None, Some("dir"))
    ensures EntryName(HeaderOf(LEAK[2]), pending) == "dir"
    ensures EntryName(HeaderOf(LEAK[2]), NOTHING) == "f"
  {
    assert "./"[0] != "dir"[0];
    assert Ascii("f") == ['f' as int];
    assert Latin1(['f' as int]) == "f" && Latin1([]) == "";
    assert HeaderOf(LEAK[2]).name == "f" && HeaderOf(LEAK[2]).prefix == "";
  }

  lemma LeakMeaning(max: nat, decode: seq<byte> -> string)
    requires decode(Ascii(LEAK_HEADER)) == LEAK_HEADER
    ensures Meaning(LEAK, max, decode, NOTHING, map[]) == Some(map["dir" := []])
    ensures Intended(LEAK, max, decode, NOTHING, map[]) == Some(map["f" := []])
  {
    hide PaxPath, Meaning, EntryName;
    var over, dir, file := LEAK[0], LEAK[1], LEAK[2];
    var pending := NextPending(over.kind, over.payload, decode, NOTHING);
    LeakHeader();
    assert pending == Pending(None, Some("dir"));
    LeakNames(pending);
    assert file.payload == [];
    assert LEAK == [over] + [dir] + [file] + [];
    OverrideRun(over, [dir], file, [], max, decode, map[]);
    MeaningEnds(max, decode, map["dir" := []]);
    assert LEAK[1..] == [dir] + [file];
    IntendedSkips([dir], file, max, decode, pending);
  }

  lemma NewRecordOk(name: string, kind: byte, payload: string)
    requires forall i :: 0 <= i < |name| ==> '\0' < name[i] < 128 as char
    requires forall i :: 0 <= i < |payload| ==> payload[i] < 128 as char
    requires |name| <= 100 && |payload| < SIZE_LIMIT
    ensures WellFormed(NewRecord(name, kind, payload))
  {
  }

  lemma LeakOk()
    ensures AllWellFormed(LEAK)
  {
    hide WellFormed, NewRecord;
    NewRecordOk("p", 'x' as int, LEAK_HEADER);
    NewRecordOk("d", DIRECTORY, "");
    NewRecordOk("f", '0' as int, "");
  }

  /** On the bytes of this archive, for every decoder that reads ASCII, the
      reader stores the file under the directory's path. */
  lemma DirectoryPathLeaks(trailer: seq<byte>, max: nat, decode: seq<byte> -> string)
    requires EndsArchive(trailer) && decode(Ascii(LEAK_HEADER)) == LEAK_HEADER
    ensures AllWellFormed(LEAK)
    ensures Outcome(Bytes(LEAK) + trailer, max, decode, 0, NOTHING, map[]) == Some(map["dir" := []])
    ensures Intended(LEAK, max, decode, NOTHING, map[]) == Some(map["f" := []])
  {
    hide Outcome, Bytes, Meaning, Intended, AllWellFormed, EndsArchive;
    LeakOk();
    RecordsOutcome([], LEAK, trailer, max, decode, NOTHING, map[]);
    assert [] + Bytes(LEAK) + trailer == Bytes(LEAK) + trailer;
    LeakMeaning(max, decode);
  }

  // ---------------------------------------------------------------------
  // When the reader keeps to the format
  // ---------------------------------------------------------------------

  /** Since the last regular file there was an override. */
  predicate OverrideBefore(rs: seq<Record>, i: nat)
    requires i <= |rs|
  {
    i > 0 && !IsRegular(rs[i - 1].kind) && (IsOverride(rs[i - 1]) || OverrideBefore(rs, i - 1))
  }

  /** No override waits at a directory, link or device. */
  ghost predicate NoStrayOverride(rs: seq<Record>) {
    forall i :: 0 <= i < |rs| && IsOtherFile(rs[i]) ==> !OverrideBefore(rs, i)
  }

  lemma {:induction false} MeaningIsIntendedFrom(rs: seq<Record>, k: nat, max: int, decode: seq<byte> -> string,
                                                 pending: Pending, files: map<string, seq<byte>>)
    requires NoStrayOverride(rs) && k <= |rs| && (!OverrideBefore(rs, k) ==> pending == NOTHING)
    ensures Meaning(rs[k..], max, decode, pending, files) == Intended(rs[k..], max, decode, pending, files)
    decreases |rs| - k
  {
    hide EntryName, PaxPath;
    if k < |rs| {
      var r := rs[k];
      assert rs[k..][0] == r && rs[k..][1..] == rs[k + 1..];
      if !IsRegular(r.kind) {
        MeaningIsIntendedFrom(rs, k + 1, max, decode, NextPending(r.kind, r.payload, decode, pending), files);
      } else if |r.payload| <= max {
        MeaningIsIntendedFrom(rs, k + 1, max, decode, NOTHING, files[EntryName(HeaderOf(r), pending) := r.payload]);
      }
    }
  }

  /** Archives without a stray override are read as the format means them. */
  lemma MeaningIsIntended(rs: seq<Record>, max: int, decode: seq<byte> -> string)
    requires NoStrayOverride(rs)
    ensures Meaning(rs, max, decode, NOTHING, map[]) == Intended(rs, max, decode, NOTHING, map[])
  {
    MeaningIsIntendedFrom(rs, 0, max, decode, NOTHING, map[]);
    assert rs[0..] == rs;
  }

  /** None of the records is a file of the archive. */
  ghost predicate NoneIsFile(rs: seq<Record>) {
    forall i :: 0 <= i < |rs| ==> !IsOtherFile(rs[i])
  }

  /** One override, some records that carry nothing, and a file: the reader
      keeps to the format exactly when no other file stands between, or the
      override gives the file the name it has anyway. */
  lemma OneOverrideExact(over: Record, between: seq<Record>, file: Record, max: int, decode: seq<byte> -> string)
    requires IsOverride(over) && RegularFile(file, max)
    requires forall i :: 0 <= i < |between| ==> CarriesNothing(between[i])
    ensures var rs := [over] + between + [file];
      var overridden := EntryName(HeaderOf(file), NextPending(over.kind, over.payload, decode, NOTHING));
      Meaning(rs, max, decode, NOTHING, map[]) == Intended(rs, max, decode, NOTHING, map[])
      <==> NoneIsFile(between) || overridden == EntryName(HeaderOf(file), NOTHING)
  {
    hide EntryName, NextPending, Meaning;
    var rs := [over] + between + [file];
    var pending := NextPending(over.kind, over.payload, decode, NOTHING);
    assert rs + [] == rs;
    OverrideRun(over, between, file, [], max, decode, map[]);
    MeaningEnds(max, decode, map[EntryName(HeaderOf(file), pending) := file.payload]);
    assert rs[1..] == between + [file];
    IntendedSkips(between, file, max, decode, pending);
    var a, b := EntryName(HeaderOf(file), pending), EntryName(HeaderOf(file), NOTHING);
    assert map[a := file.payload] == map[b := file.payload] <==> a == b by {
      assert a in map[a := file.payload];
    }
  }

  lemma MeaningEnds(max: int, decode: seq<byte> -> string, files: map<string, seq<byte>>)
    ensures Meaning([], max, decode, NOTHING, files) == Some(files)
  {
  }

  lemma {:induction false} IntendedSkips(between: seq<Record>, file: Record, max: int, decode: seq<byte> -> string,
                                         pending: Pending)
    requires RegularFile(file, max) && forall i :: 0 <= i < |between| ==> CarriesNothing(between[i])
    ensures Intended(between + [file], max, decode, pending, map[])
         == Some(map[EntryName(HeaderOf(file), if NoneIsFile(between) then pending else NOTHING) := file.payload])
    decreases |between|
  {
    hide EntryName;
    var rs := between + [file];
    if between == [] {
      assert rs[1..] == [];
    } else {
      var r := between[0];
      assert rs[1..] == between[1..] + [file];
      assert CarriesNothing(r);
      IntendedSkips(between[1..], file, max, decode, if IsOtherFile(r) then NOTHING else pending);
      assert NoneIsFile(between) <==> !IsOtherFile(r) && NoneIsFile(between[1..]) by {
        assert forall i :: 0 < i < |between| ==> between[i] == between[1..][i - 1];
      }
    }
  }

  // ---------------------------------------------------------------------
  // The exact condition for every archive
  // ---------------------------------------------------------------------

  /** The names pending at record i: as the reader keeps them, or, with `own`,
      as the format does. */
  function PendingAt(rs: seq<Record>, i: nat, decode: seq<byte> -> string, own: bool): Pending
    requires i <= |rs|
  {
    if i == 0 || IsRegular(rs[i - 1].kind) || (own && IsOtherFile(rs[i - 1])) then NOTHING
    else NextPending(rs[i - 1].kind, rs[i - 1].payload, decode, PendingAt(rs, i - 1, decode, own))
  }

  function NameAt(rs: seq<Record>, i: nat, decode: seq<byte> -> string, own: bool): string
    requires i < |rs|
  {
    EntryName(HeaderOf(rs[i]), PendingAt(rs, i, decode, own))
  }

  /** The files of the first k records, in order, under their names. */
  function FilesOf(rs: seq<Record>, k: nat, decode: seq<byte> -> string, own: bool): seq<(string, seq<byte>)>
    requires k <= |rs|
  {
    if k == 0 then [] else
      FilesOf(rs, k - 1, decode, own)
      + if IsRegular(rs[k - 1].kind) then [(NameAt(rs, k - 1, decode, own), rs[k - 1].payload)] else []
  }

  function PutAll(list: seq<(string, seq<byte>)>): map<string, seq<byte>> {
    if list == [] then map[] else PutAll(list[..|list| - 1])[list[|list| - 1].0 := list[|list| - 1].1]
  }

  ghost predicate Fits(rs: seq<Record>, max: int) {
    forall i :: 0 <= i < |rs| && IsRegular(rs[i].kind) ==> |rs[i].payload| <= max
  }

  lemma {:induction false} MeaningFrom(rs: seq<Record>, k: nat, max: int, decode: seq<byte> -> string)
    requires Fits(rs, max) && k <= |rs|
    ensures Meaning(rs[k..], max, decode, PendingAt(rs, k, decode, false), PutAll(FilesOf(rs, k, decode, false)))
         == Some(PutAll(FilesOf(rs, |rs|, decode, false)))
    decreases |rs| - k
  {
    hide EntryName, NextPending;
    if k < |rs| {
      assert rs[k..][0] == rs[k] && rs[k..][1..] == rs[k + 1..];
      FilesStep(rs, k, decode, false);
      MeaningFrom(rs, k + 1, max, decode);
    }
  }

  lemma {:induction false} IntendedFrom(rs: seq<Record>, k: nat, max: int, decode: seq<byte> -> string)
    requires Fits(rs, max) && k <= |rs|
    ensures Intended(rs[k..], max, decode, PendingAt(rs, k, decode, true), PutAll(FilesOf(rs, k, decode, true)))
         == Some(PutAll(FilesOf(rs, |rs|, decode, true)))
    decreases |rs| - k
  {
    hide EntryName, NextPending;
    if k < |rs| {
      assert rs[k..][0] == rs[k] && rs[k..][1..] == rs[k + 1..];
      FilesStep(rs, k, decode, true);
      IntendedFrom(rs, k + 1, max, decode);
    }
  }

  lemma FilesStep(rs: seq<Record>, k: nat, decode: seq<byte> -> string, own: bool)
    requires k < |rs|
    ensures PutAll(FilesOf(rs, k + 1, decode, own)) ==
      if IsRegular(rs[k].kind) then PutAll(FilesOf(rs, k, decode, own))[NameAt(rs, k, decode, own) := rs[k].payload]
      else PutAll(FilesOf(rs, k, decode, own))
  {
    hide EntryName, NextPending, PendingAt;
    var before := FilesOf(rs, k, decode, own);
    if IsRegular(rs[k].kind) {
      var last := (NameAt(rs, k, decode, own), rs[k].payload);
      assert (before + [last])[..|before|] == before;
    } else {
      assert before + [] == before;
    }
  }

  /** Both meanings store a list of files in order; they differ in the names. */
  lemma StoredInOrder(rs: seq<Record>, max: int, decode: seq<byte> -> string)
    requires Fits(rs, max)
    ensures Meaning(rs, max, decode, NOTHING, map[]) == Some(PutAll(FilesOf(rs, |rs|, decode, false)))
    ensures Intended(rs, max, decode, NOTHING, map[]) == Some(PutAll(FilesOf(rs, |rs|, decode, true)))
  {
    MeaningFrom(rs, 0, max, decode);
    IntendedFrom(rs, 0, max, decode);
    assert rs[0..] == rs;
  }

  /** Since the last regular file there was an override, then a file of another type. */
  predicate Crossed(rs: seq<Record>, i: nat)
    requires i <= |rs|
  {
    i > 0 && !IsRegular(rs[i - 1].kind) &&
    if IsOtherFile(rs[i - 1]) then OverrideBefore(rs, i - 1) else Crossed(rs, i - 1)
  }

  lemma {:induction false} NothingPending(rs: seq<Record>, i: nat, decode: seq<byte> -> string, own: bool)
    requires i <= |rs| && !OverrideBefore(rs, i)
    ensures PendingAt(rs, i, decode, own) == NOTHING
  {
    if i > 0 && !IsRegular(rs[i - 1].kind) {
      NothingPending(rs, i - 1, decode, own);
    }
  }

  lemma {:induction false} SamePending(rs: seq<Record>, i: nat, decode: seq<byte> -> string)
    requires i <= |rs| && !Crossed(rs, i)
    ensures PendingAt(rs, i, decode, false) == PendingAt(rs, i, decode, true)
  {
    hide NextPending;
    if i > 0 && !IsRegular(rs[i - 1].kind) {
      if IsOtherFile(rs[i - 1]) {
        NothingPending(rs, i, decode, false);
      } else {
        SamePending(rs, i - 1, decode);
      }
    }
  }

  ghost predicate CrossedNamesAgree(rs: seq<Record>, k: nat, decode: seq<byte> -> string)
    requires k <= |rs|
  {
    forall i :: 0 <= i < k && IsRegular(rs[i].kind) && Crossed(rs, i) ==>
      NameAt(rs, i, decode, false) == NameAt(rs, i, decode, true)
  }

  lemma {:induction false} FilesAgreeUpTo(rs: seq<Record>, k: nat, decode: seq<byte> -> string)
    requires k <= |rs|
    ensures |FilesOf(rs, k, decode, false)| == |FilesOf(rs, k, decode, true)|
    ensures FilesOf(rs, k, decode, false) == FilesOf(rs, k, decode, true) <==> CrossedNamesAgree(rs, k, decode)
  {
    hide EntryName, NextPending, PendingAt, Crossed;
    if k > 0 {
      FilesAgreeUpTo(rs, k - 1, decode);
      if IsRegular(rs[k - 1].kind) {
        if !Crossed(rs, k - 1) {
          SamePending(rs, k - 1, decode);
        }
        var a, b := FilesOf(rs, k - 1, decode, false), FilesOf(rs, k - 1, decode, true);
        var x, y := (NameAt(rs, k - 1, decode, false), rs[k - 1].payload), (NameAt(rs, k - 1, decode, true), rs[k - 1].payload);
        assert a + [x] == b + [y] <==> a == b && x == y by {
          assert (a + [x])[..|a|] == a && (b + [y])[..|b|] == b;
          assert (a + [x])[|a|] == x && (b + [y])[|b|] == y;
        }
        assert CrossedNamesAgree(rs, k, decode) <==>
          (CrossedNamesAgree(rs, k - 1, decode)
           && (Crossed(rs, k - 1) ==> NameAt(rs, k - 1, decode, false) == NameAt(rs, k - 1, decode, true)));
      } else {
        assert FilesOf(rs, k, decode, false) == FilesOf(rs, k - 1, decode, false);
        assert FilesOf(rs, k, decode, true) == FilesOf(rs, k - 1, decode, true);
        assert CrossedNamesAgree(rs, k, decode) <==> CrossedNamesAgree(rs, k - 1, decode);
      }
    }
  }

  /** For every archive: the reader stores the same files under the same names
      as the format, in the same order, exactly when every file reached across
      another one that used the override up has the override's name anyway. */
  lemma FilesAgreeIff(rs: seq<Record>, decode: seq<byte> -> string)
    ensures FilesOf(rs, |rs|, decode, false) == FilesOf(rs, |rs|, decode, true)
      <==> CrossedNamesAgree(rs, |rs|, decode)
  {
    FilesAgreeUpTo(rs, |rs|, decode);
  }

  // ---------------------------------------------------------------------
  // Members with no other file between the override and the file
  // ---------------------------------------------------------------------

  ghost predicate Direct(ms: seq<Member>) {
    forall i :: 0 <= i < |ms| ==> (ms[i].LongNamed? || ms[i].PaxNamed?) ==> NoneIsFile(ms[i].between)
  }

  lemma {:induction false} IntendedPasses(between: seq<Record>, file: Record, rest: seq<Record>, max: int,
                                          decode: seq<byte> -> string, pending: Pending, files: map<string, seq<byte>>)
    requires RegularFile(file, max) && NoneIsFile(between) && forall i :: 0 <= i < |between| ==> CarriesNothing(between[i])
    ensures Intended(between + [file] + rest, max, decode, pending, files)
         == Intended(rest, max, decode, NOTHING, files[EntryName(HeaderOf(file), pending) := file.payload])
    decreases |between|
  {
    hide EntryName;
    var rs := between + [file] + rest;
    if between == [] {
      assert rs[1..] == rest;
    } else {
      assert rs[1..] == between[1..] + [file] + rest;
      assert CarriesNothing(between[0]) && !IsOtherFile(between[0]);
      IntendedPasses(between[1..], file, rest, max, decode, pending, files);
    }
  }

  lemma MemberIntended(m: Member, rest: seq<Record>, max: int, decode: seq<byte> -> string, files: map<string, seq<byte>>)
    requires MemberOk(m, max, decode) && ((m.LongNamed? || m.PaxNamed?) ==> NoneIsFile(m.between))
    ensures Intended(RecordsOf(m) + rest, max, decode, NOTHING, files)
         == Intended(rest, max, decode, NOTHING, if m.Ignored? then files else files[MemberPath(m) := m.file.payload])
  {
    hide EntryName, MemberPath, NextPending, PaxPath, PaxText, PaxLineText, PaxOk, NoPath, StrayPath, NoneIsFile;
    var rs := RecordsOf(m) + rest;
    if m.Plain? {
      assert rs[1..] == rest;
      PlainName(m.file);
    } else if m.Ignored? {
      assert rs[1..] == rest;
      NothingNext(m.rec, decode);
    } else {
      OverrideIntended(m.over, m.between, m.file, rest, max, decode, files);
      OverrideName(m, max, decode);
    }
  }

  lemma NothingNext(r: Record, decode: seq<byte> -> string)
    requires CarriesNothing(r)
    ensures NextPending(r.kind, r.payload, decode, NOTHING) == NOTHING
  {
  }

  lemma OverrideIntended(over: Record, between: seq<Record>, file: Record, rest: seq<Record>, max: int,
                         decode: seq<byte> -> string, files: map<string, seq<byte>>)
    requires IsOverride(over) && RegularFile(file, max) && NoneIsFile(between)
    requires forall i :: 0 <= i < |between| ==> CarriesNothing(between[i])
    ensures Intended([over] + between + [file] + rest, max, decode, NOTHING, files)
         == Intended(rest, max, decode, NOTHING,
                     files[EntryName(HeaderOf(file), NextPending(over.kind, over.payload, decode, NOTHING)) := file.payload])
  {
    hide EntryName, NextPending, NoneIsFile;
    var rs := [over] + between + [file] + rest;
    assert rs[0] == over && rs[1..] == between + [file] + rest;
    IntendedPasses(between, file, rest, max, decode, NextPending(over.kind, over.payload, decode, NOTHING), files);
  }

  lemma {:induction false} MembersIntended(ms: seq<Member>, max: int, decode: seq<byte> -> string,
                                           files: map<string, seq<byte>>)
    requires AllOk(ms, max, decode) && Direct(ms)
    ensures Intended(Records(ms), max, decode, NOTHING, files) == Some(Contents(ms, files))
    decreases |ms|
  {
    hide MemberOk, MemberPath, RecordsOf, NoneIsFile;
    if ms != [] {
      var m := ms[0];
      assert MemberOk(m, max, decode) && ((m.LongNamed? || m.PaxNamed?) ==> NoneIsFile(m.between));
      MemberIntended(m, Records(ms[1..]), max, decode, files);
      MembersIntended(ms[1..], max, decode,
                      if m.Ignored? then files else files[MemberPath(m) := m.file.payload]);
    }
  }

  /** Round trip in the format's own terms: where no other file stands between
      an override and its file, the reader returns what the format means. */
  lemma RoundTripIntended(ms: seq<Member>, trailer: seq<byte>, max: int, decode: seq<byte> -> string)
    requires AllWellFormed(Records(ms)) && AllOk(ms, max, decode) && EndsArchive(trailer) && Direct(ms)
    ensures Outcome(Bytes(Records(ms)) + trailer, max, decode, 0, NOTHING, map[])
         == Intended(Records(ms), max, decode, NOTHING, map[]) == Some(Contents(ms, map[]))
  {
    hide Outcome, Bytes, Contents, Intended, Records, AllOk, AllWellFormed, Direct;
    RoundTrip(ms, trailer, max, decode);
    MembersIntended(ms, max, decode, map[]);
  }
}
