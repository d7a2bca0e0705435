/** The in-memory tar reader of the host-contract gate: ustar names and
    prefixes, GNU `L` long names and pax `x` path overrides. */
module Tar {
  import opened Text

  type byte = b: int | 0 <= b < 256

  const BLOCK: nat := 512

  /** String.fromCharCode over raw bytes. */
  function Latin1(bytes: seq<byte>): (s: string)
    ensures |s| == |bytes|
    ensures forall i :: 0 <= i < |s| ==> s[i] == bytes[i] as char
  {
    seq(|bytes|, i requires 0 <= i < |bytes| => bytes[i] as char)
  }

  function UntilNul(field: seq<byte>): (r: seq<byte>)
    ensures r <= field && 0 !in r
    ensures |r| < |field| ==> field[|r|] == 0
  {
    if field == [] || field[0] == 0 then [] else [field[0]] + UntilNul(field[1..])
  }

  lemma UntilNulAt(field: seq<byte>, k: nat)
    requires k <= |field| && 0 !in field[..k]
    requires k < |field| ==> field[k] == 0
    ensures UntilNul(field) == field[..k]
  {
  }

  /** Where a field stops: at its width or at the end of the block. */
  function FieldEnd(block: seq<byte>, offset: nat, length: nat): nat {
    if offset + length < |block| then offset + length else |block|
  }

  /** The NUL-terminated (or field-filling) text of a header field. */
  function FieldText(block: seq<byte>, offset: nat, length: nat): string {
    if offset > |block| then "" else Latin1(UntilNul(block[offset..FieldEnd(block, offset, length)]))
  }

  method HeaderCStr(block: seq<byte>, offset: nat, length: nat) returns (s: string)
    ensures s == FieldText(block, offset, length)
  {
    hide UntilNul;
    var end := offset;
    var max := FieldEnd(block, offset, length);
    if max < offset {
      return "";
    }
    while end < max && block[end] != 0
      invariant offset <= end <= max
      invariant 0 !in block[offset..end]
    {
      end := end + 1;
    }
    assert block[offset..max][..end - offset] == block[offset..end];
    UntilNulAt(block[offset..max], end - offset);
    s := Latin1(block[offset..end]);
  }

  /** Number.parseInt(_, 8) on trimmed text: an optional sign and the longest
      octal prefix; None is NaN. */
  function ParseOctal(text: string): Option<int> {
    var t := TrimStart(text);
    var negative := t != "" && t[0] == '-';
    var unsigned := if t != "" && (t[0] == '-' || t[0] == '+') then t[1..] else t;
    var digits := TakeDigits(unsigned, 8);
    if digits == "" then None
    else
      var magnitude: int := Value(digits, 8);
      Some(if negative then -magnitude else magnitude)
  }

  /** A sign or none, octal digits, and something that is no octal digit. */
  ghost predicate OctalShape(text: string, sign: string, digits: string, rest: string) {
    && text == sign + digits + rest && (sign == "" || sign == "+" || sign == "-")
    && digits != "" && Digits(digits, 8) && (rest != "" ==> !IsDigit(rest[0], 8))
  }

  ghost function Signed(sign: string, digits: string): int
    requires Digits(digits, 8)
  {
    var magnitude: int := Value(digits, 8);
    if sign == "-" then -magnitude else magnitude
  }

  /** A size reads as a number exactly when it starts like one. */
  lemma OctalMeaning(text: string, v: int)
    requires text == "" || !IsSpace(text[0])
    ensures ParseOctal(text) == Some(v) <==>
      exists sign, digits, rest :: OctalShape(text, sign, digits, rest) && v == Signed(sign, digits)
  {
    assert TrimStart(text) == text;
    hide TrimStart, TakeDigits, Value, IsSpace, Signed;
    if sign, digits, rest :| OctalShape(text, sign, digits, rest) && v == Signed(sign, digits) {
      OctalReads(text, sign, digits, rest);
    }
    if ParseOctal(text) == Some(v) {
      OctalSplits(text, v);
    }
  }

  lemma OctalSplits(text: string, v: int)
    requires TrimStart(text) == text && ParseOctal(text) == Some(v)
    ensures exists sign, digits, rest :: OctalShape(text, sign, digits, rest) && v == Signed(sign, digits)
  {
    hide TrimStart, TakeDigits, Value;
    var signed := text != "" && (text[0] == '-' || text[0] == '+');
    var sign, unsigned := if signed then text[..1] else "", if signed then text[1..] else text;
    var digits := TakeDigits(unsigned, 8);
    var rest := unsigned[|digits|..];
    assert unsigned == digits + rest;
    assert text == sign + digits + rest;
    assert sign == "-" <==> text != "" && text[0] == '-';
    assert OctalShape(text, sign, digits, rest) && v == Signed(sign, digits);
  }

  lemma OctalReads(text: string, sign: string, digits: string, rest: string)
    requires OctalShape(text, sign, digits, rest) && TrimStart(text) == text
    ensures ParseOctal(text) == Some(Signed(sign, digits))
  {
    hide TakeDigits, Value;
    TakeDigitsExact(digits, rest, 8);
    assert IsDigit(digits[0], 8);
    if sign == "" {
      assert text == digits + rest && text[0] == digits[0];
    } else {
      assert text[0] == sign[0] && text[1..] == digits + rest;
    }
  }

  datatype Header = Header(name: string, size: nat, kind: byte, prefix: string)

  /** None when the size field is not a non-negative octal number. */
  function ReadHeader(block: seq<byte>): Option<Header>
    requires |block| == BLOCK
  {
    var size := ParseOctal(Trim(FieldText(block, 124, 12)));
    if size.None? || size.value < 0 then None
    else Some(Header(FieldText(block, 0, 100), size.value, block[156], FieldText(block, 345, 155)))
  }

  function Padded(size: nat): (r: nat)
    ensures size <= r < size + BLOCK && r % BLOCK == 0
  {
    (size + BLOCK - 1) / BLOCK * BLOCK
  }

  predicate AllZero(block: seq<byte>) {
    forall i :: 0 <= i < |block| ==> block[i] == 0
  }

  // ---------------------------------------------------------------------
  // Extended names
  // ---------------------------------------------------------------------

  function PaxLine(line: string): Option<string> {
    var space := IndexOf(line, ' ');
    if space == 0 || space == |line| then None else
      var record := line[space + 1..];
      var eq := IndexOf(record, '=');
      if 0 < eq < |record| && record[..eq] == "path" then Some(record[eq + 1..]) else None
  }

  function FirstPathLine(lines: seq<string>): Option<string> {
    if lines == [] then None
    else if PaxLine(lines[0]).Some? then PaxLine(lines[0])
    else FirstPathLine(lines[1..])
  }

  /** The value of the first `path` line of a decoded pax payload. */
  function PaxPath(text: string): Option<string> {
    FirstPathLine(Split(text, '\n'))
  }

  /** The search for that line. */
  method FindPaxPath(text: string) returns (value: Option<string>)
    ensures value == PaxPath(text)
    ensures forall v :: value == Some(v) ==> '\n' !in v
  {
    hide PaxLine;
    var lines := Split(text, '\n');
    for i := 0 to |lines|
      invariant PaxPath(text) == FirstPathLine(lines[i..])
    {
      assert lines[i..][1..] == lines[i + 1..];
      PaxLineSuffix(lines[i]);
      var hit := PaxLine(lines[i]);
      if hit.Some? {
        return hit;
      }
    }
    return None;
  }

  lemma PaxLineSuffix(line: string)
    ensures PaxLine(line).Some? ==> forall c :: c in PaxLine(line).value ==> c in line
  {
  }

  function StripNuls(s: string): (r: string)
    ensures r <= s && (r != "" ==> r[|r| - 1] != '\0')
  {
    if s != "" && s[|s| - 1] == '\0' then StripNuls(s[..|s| - 1]) else s
  }

  function DropDotSlash(s: string): string {
    if "./" <= s then s[2..] else s
  }

  // ---------------------------------------------------------------------
  // Walking the archive
  // ---------------------------------------------------------------------

  /** Names carried from an override record to the next regular file. */
  datatype Pending = Pending(longName: Option<string>, paxPath: Option<string>)

  const NOTHING := Pending(None, None)

  /** A returned member: its final name and the slice that holds its bytes. */
  datatype Entry = Entry(name: string, start: nat, size: nat)

  predicate IsRegular(kind: byte) {
    kind == '0' as int || kind == 0 || kind == '7' as int
  }

  predicate IsPax(kind: byte) {
    kind == 'x' as int || kind == 'X' as int
  }

  const LONG_NAME: byte := 'L' as int

  function EntryName(h: Header, pending: Pending): string {
    DropDotSlash(
      if pending.longName.Some? then pending.longName.value
      else if pending.paxPath.Some? then pending.paxPath.value
      else if h.prefix != "" then h.prefix + "/" + h.name
      else h.name)
  }

  /** The pending names after a record that is not a regular file. */
  function NextPending(kind: byte, data: seq<byte>, decode: seq<byte> -> string, pending: Pending): Pending {
    if kind == LONG_NAME then pending.(longName := Some(StripNuls(decode(data))))
    else if IsPax(kind) && PaxPath(decode(data)).Some? then pending.(paxPath := PaxPath(decode(data)))
    else pending
  }

  /** What one header block asks the reader to do. */
  datatype Step =
    | Stop
    | Refuse
    | Skip(next: nat, pending: Pending)
    | Take(next: nat, entry: Entry)

  predicate AtEnd(plain: seq<byte>, offset: nat) {
    offset + BLOCK > |plain| || AllZero(plain[offset..offset + BLOCK])
  }

  /** The record under a readable header; `decode` is the platform's UTF-8 text decoder. */
  function RecordStep(plain: seq<byte>, maxFileBytes: int, decode: seq<byte> -> string, h: Header, start: nat,
                      pending: Pending): (s: Step)
    requires start + h.size <= |plain|
  {
    var next := start + Padded(h.size);
    if !IsRegular(h.kind) then Skip(next, NextPending(h.kind, plain[start..start + h.size], decode, pending))
    else if h.size > maxFileBytes then Refuse
    else Take(next, Entry(EntryName(h, pending), start, h.size))
  }

  function ReadStep(plain: seq<byte>, maxFileBytes: int, decode: seq<byte> -> string, offset: nat, pending: Pending)
    : (s: Step)
    ensures s.Skip? ==> offset + BLOCK <= s.next && offset + BLOCK <= |plain|
    ensures s.Take? ==>
      && s.entry.start == offset + BLOCK && s.entry.size <= maxFileBytes
      && s.entry.start + s.entry.size <= s.next && s.entry.start + s.entry.size <= |plain|
  {
    if AtEnd(plain, offset) then Stop else
      var header := ReadHeader(plain[offset..offset + BLOCK]);
      if header.None? || offset + BLOCK + header.value.size > |plain| then Refuse
      else RecordStep(plain, maxFileBytes, decode, header.value, offset + BLOCK, pending)
  }

  /** The members met from `offset` on, or None when the archive is refused. */
  function Walk(plain: seq<byte>, maxFileBytes: int, decode: seq<byte> -> string, offset: nat, pending: Pending)
    : Option<seq<Entry>>
    decreases |plain| - offset
  {
    match ReadStep(plain, maxFileBytes, decode, offset, pending)
    case Stop => Some([])
    case Refuse => None
    case Skip(next, pending') => Walk(plain, maxFileBytes, decode, next, pending')
    case Take(next, entry) =>
      var rest := Walk(plain, maxFileBytes, decode, next, NOTHING);
      if rest.None? then None else Some([entry] + rest.value)
  }

  predicate InBounds(plain: seq<byte>, e: Entry) {
    e.start + e.size <= |plain|
  }

  /** Map.set over the members in order: a later member replaces an earlier one. */
  function Store(plain: seq<byte>, entries: seq<Entry>, files: map<string, seq<byte>>): map<string, seq<byte>>
    requires forall i :: 0 <= i < |entries| ==> InBounds(plain, entries[i])
  {
    if entries == [] then files else
      var e := entries[0];
      assert InBounds(plain, e);
      Store(plain, entries[1..], files[e.name := plain[e.start..e.start + e.size]])
  }

  ghost function Total(entries: seq<Entry>): nat {
    if entries == [] then 0 else entries[0].size + Total(entries[1..])
  }

  ghost predicate SafeFrom(plain: seq<byte>, max: int, offset: nat, es: seq<Entry>) {
    && (forall i :: 0 <= i < |es| ==>
          offset + BLOCK <= es[i].start && InBounds(plain, es[i]) && es[i].size <= max)
    && (forall i, j :: 0 <= i < j < |es| ==> es[i].start + es[i].size + BLOCK <= es[j].start)
    && (es != [] ==> offset + Total(es) + BLOCK * |es| <= |plain|)
  }

  /** Safety on every byte input: members are slices of the archive within the
      cap, in order, each behind its own header block, so they are disjoint and
      together with their headers fit in the archive. */
  lemma {:induction false} WalkSafe(plain: seq<byte>, max: int, decode: seq<byte> -> string, offset: nat, pending: Pending)
    ensures var w := Walk(plain, max, decode, offset, pending); w.Some? ==> SafeFrom(plain, max, offset, w.value)
    decreases |plain| - offset
  {
    hide ReadStep, SafeFrom;
    match ReadStep(plain, max, decode, offset, pending)
    case Stop => SafeNone(plain, max, offset);
    case Refuse =>
    case Skip(next, pending') =>
      SafeEarlier(plain, max, offset, next);
      WalkSafe(plain, max, decode, next, pending');
    case Take(next, entry) =>
      WalkSafe(plain, max, decode, next, NOTHING);
      var rest := Walk(plain, max, decode, next, NOTHING);
      if rest.Some? {
        SafeCons(plain, max, offset, entry, next, rest.value);
      }
  }

  lemma SafeNone(plain: seq<byte>, max: int, offset: nat)
    ensures SafeFrom(plain, max, offset, [])
  {
  }

  lemma SafeEarlier(plain: seq<byte>, max: int, offset: nat, next: nat)
    requires offset <= next
    ensures forall es :: SafeFrom(plain, max, next, es) ==> SafeFrom(plain, max, offset, es)
  {
  }

  lemma SafeCons(plain: seq<byte>, max: int, offset: nat, entry: Entry, next: nat, rest: seq<Entry>)
    requires SafeFrom(plain, max, next, rest)
    requires entry.start == offset + BLOCK && entry.size <= max && InBounds(plain, entry)
    requires entry.start + entry.size <= next
    ensures SafeFrom(plain, max, offset, [entry] + rest)
  {
    var es := [entry] + rest;
    assert es[1..] == rest;
  }

  /** Every stored file is one of the slices, under that slice's name. */
  lemma {:induction false} StoredSlice(plain: seq<byte>, entries: seq<Entry>, files: map<string, seq<byte>>, path: string)
    requires forall i :: 0 <= i < |entries| ==> InBounds(plain, entries[i])
    requires path in Store(plain, entries, files)
    ensures
      || (path in files && Store(plain, entries, files)[path] == files[path])
      || (exists i :: 0 <= i < |entries| && entries[i].name == path
            && Store(plain, entries, files)[path] == plain[entries[i].start..entries[i].start + entries[i].size])
  {
    if entries != [] {
      var e := entries[0];
      assert InBounds(plain, e);
      var data := plain[e.start..e.start + e.size];
      StoredSlice(plain, entries[1..], files[e.name := data], path);
      assert forall i :: 0 <= i < |entries[1..]| ==> entries[1..][i] == entries[i + 1];
    }
  }

  /** What the reader returns when it continues from `offset` with `files` stored. */
  ghost function Outcome(plain: seq<byte>, max: int, decode: seq<byte> -> string, offset: nat, pending: Pending,
                         files: map<string, seq<byte>>): Option<map<string, seq<byte>>>
  {
    var w := Walk(plain, max, decode, offset, pending);
    WalkSafe(plain, max, decode, offset, pending);
    if w.None? then None else Some(Store(plain, w.value, files))
  }

  lemma OutcomeTake(plain: seq<byte>, max: int, decode: seq<byte> -> string, offset: nat, pending: Pending,
                    files: map<string, seq<byte>>)
    ensures var step := ReadStep(plain, max, decode, offset, pending);
      step.Take? ==>
        Outcome(plain, max, decode, offset, pending, files)
        == Outcome(plain, max, decode, step.next, NOTHING,
                   files[step.entry.name := plain[step.entry.start..step.entry.start + step.entry.size]])
  {
    hide ReadStep;
    var step := ReadStep(plain, max, decode, offset, pending);
    if step.Take? {
      WalkSafe(plain, max, decode, offset, pending);
      WalkSafe(plain, max, decode, step.next, NOTHING);
      var rest := Walk(plain, max, decode, step.next, NOTHING);
      if rest.Some? {
        assert ([step.entry] + rest.value)[1..] == rest.value;
      }
    }
  }

  /** One iteration's fields, read with HeaderCStr. */
  method ReadFields(block: seq<byte>) returns (h: Option<Header>)
    requires |block| == BLOCK
    ensures h == ReadHeader(block)
  {
    var name := HeaderCStr(block, 0, 100);
    var sizeField := HeaderCStr(block, 124, 12);
    var size := ParseOctal(Trim(sizeField));
    if size.None? || size.value < 0 {
      return None;
    }
    var prefix := HeaderCStr(block, 345, 155);
    return Some(Header(name, size.value, block[156], prefix));
  }

  lemma OutcomeStep(plain: seq<byte>, max: int, decode: seq<byte> -> string, offset: nat, pending: Pending,
                    files: map<string, seq<byte>>)
    ensures var result := Outcome(plain, max, decode, offset, pending, files);
      match ReadStep(plain, max, decode, offset, pending)
      case Stop => result == Some(files)
      case Refuse => result == None
      case Skip(next, pending') => result == Outcome(plain, max, decode, next, pending', files)
      case Take(next, e) =>
        result == Outcome(plain, max, decode, next, NOTHING, files[e.name := plain[e.start..e.start + e.size]])
  {
    hide ReadStep;
    OutcomeTake(plain, max, decode, offset, pending, files);
  }

  method ParseTar(plain: seq<byte>, maxFileBytes: int, decode: seq<byte> -> string)
    returns (result: Option<map<string, seq<byte>>>)
    ensures result == Outcome(plain, maxFileBytes, decode, 0, NOTHING, map[])
  {
    hide Outcome, ReadHeader;
    var files: map<string, seq<byte>> := map[];
    var offset: nat := 0;
    var pendingLongName: Option<string> := None;
    var pendingPaxPath: Option<string> := None;
    while offset + BLOCK <= |plain|
      invariant Outcome(plain, maxFileBytes, decode, 0, NOTHING, map[])
             == Outcome(plain, maxFileBytes, decode, offset, Pending(pendingLongName, pendingPaxPath), files)
      decreases |plain| - offset
    {
      OutcomeStep(plain, maxFileBytes, decode, offset, Pending(pendingLongName, pendingPaxPath), files);
      var block := plain[offset..offset + BLOCK];
      if AllZero(block) {
        return Some(files);
      }
      var header := ReadFields(block);
      if header.None? {
        return None;
      }
      var h := header.value;
      var dataStart := offset + BLOCK;
      var dataEnd := dataStart + h.size;
      if dataEnd > |plain| {
        return None;
      }
      var data := plain[dataStart..dataEnd];
      if h.kind == LONG_NAME {
        pendingLongName := Some(StripNuls(decode(data)));
      } else if IsPax(h.kind) {
        var override := FindPaxPath(decode(data));
        if override.Some? {
          pendingPaxPath := override;
        }
      } else if IsRegular(h.kind) {
        if h.size > maxFileBytes {
          return None;
        }
        var entryName := if pendingLongName.Some? then pendingLongName.value
                         else if pendingPaxPath.Some? then pendingPaxPath.value else h.name;
        if pendingLongName.None? && pendingPaxPath.None? && h.prefix != "" {
          entryName := h.prefix + "/" + h.name;
        }
        files := files[DropDotSlash(entryName) := data];
        pendingLongName := None;
        pendingPaxPath := None;
      }
      offset := dataStart + Padded(h.size);
    }
    OutcomeStep(plain, maxFileBytes, decode, offset, Pending(pendingLongName, pendingPaxPath), files);
    result := Some(files);
  }
}
