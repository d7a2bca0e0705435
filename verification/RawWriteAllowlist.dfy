/** The raw-write allowlist of the invariants gate: its text format, parser
    and renderer. */
module RawWriteAllowlist {
  import opened Text

  datatype Allowlist = Allowlist(entries: map<string, nat>, markers: set<string>, malformed: seq<string>)

  const EMPTY := Allowlist(map[], {}, [])

  // ---------------------------------------------------------------------
  // Parsing
  // ---------------------------------------------------------------------

  /** The characters that a dot in a regular expression does not match. */
  predicate IsTerminator(c: char) {
    c == '\n' || c == '\r' || c == '\U{2028}' || c == '\U{2029}'
  }

  predicate OneLine(s: string) {
    forall i :: 0 <= i < |s| ==> !IsTerminator(s[i])
  }

  function WithoutCR(s: string): string {
    if s == "" then ""
    else if s[0] == '\r' then WithoutCR(s[1..])
    else [s[0]] + WithoutCR(s[1..])
  }

  function SkipBlanks(s: string): string {
    if s != "" && (s[0] == ' ' || s[0] == '\t') then SkipBlanks(s[1..]) else s
  }

  const APPROVED := "APPROVED-NEW:"

  /** The payload of a growth-approval marker in a trimmed comment line. */
  function MarkerPayload(line: string): Option<string>
    requires "#" <= line
  {
    var rest := SkipBlanks(line[1..]);
    if !(APPROVED <= rest) then None else
      var payload := SkipBlanks(rest[|APPROVED|..]);
      if payload != "" && OneLine(payload) then Some(payload) else None
  }

  datatype Line = Blank | Comment | Marker(payload: string) | Entry(path: string, count: nat) | Malformed(text: string)

  /** A trimmed line. The count is all that may follow the separating colon, so
      that colon is the last one. */
  function ClassifyLine(line: string): Line {
    if line == "" then Blank
    else if "#" <= line then
      var payload := MarkerPayload(line);
      if payload.Some? then Marker(payload.value) else Comment
    else
      var colon := LastIndexOf(line, ':');
      if colon < 1 || !OneLine(line[..colon]) then Malformed(line) else
        var digits := SkipBlanks(line[colon + 1..]);
        if digits != "" && Digits(digits, 10) then Entry(Trim(line[..colon]), Value(digits, 10))
        else Malformed(line)
  }

  function Record(a: Allowlist, line: Line): Allowlist {
    match line
    case Blank => a
    case Comment => a
    case Marker(payload) => a.(markers := a.markers + {payload})
    case Entry(path, count) => a.(entries := a.entries[path := count])
    case Malformed(text) => a.(malformed := a.malformed + [text])
  }

  function ParseLines(lines: seq<string>, a: Allowlist): Allowlist {
    if lines == [] then a else ParseLines(lines[1..], Record(a, ClassifyLine(Trim(lines[0]))))
  }

  function Parse(text: string): Allowlist {
    ParseLines(Split(WithoutCR(text), '\n'), EMPTY)
  }

  method ParseRawWriteAllowlist(text: string) returns (a: Allowlist)
    ensures a == Parse(text)
  {
    hide MarkerPayload, LastIndexOf, SkipBlanks, Trim, Split, WithoutCR;
    var entries: map<string, nat> := map[];
    var markers: set<string> := {};
    var malformed: seq<string> := [];
    var lines := Split(WithoutCR(text), '\n');
    for i := 0 to |lines|
      invariant ParseLines(lines[i..], Allowlist(entries, markers, malformed)) == ParseLines(lines, EMPTY)
    {
      ghost var rest := lines[i..];
      assert rest[0] == lines[i] && rest[1..] == lines[i + 1..];
      ghost var before := Allowlist(entries, markers, malformed);
      var line := Trim(lines[i]);
      if line == "" {
        continue;
      }
      if "#" <= line {
        var payload := MarkerPayload(line);
        if payload.Some? {
          markers := markers + {payload.value};
        }
        continue;
      }
      var colon := LastIndexOf(line, ':');
      var digits := SkipBlanks(line[colon + 1..]);
      if colon < 1 || !OneLine(line[..colon]) || digits == "" || !Digits(digits, 10) {
        malformed := malformed + [line];
        continue;
      }
      entries := entries[Trim(line[..colon]) := Value(digits, 10)];
      assert Allowlist(entries, markers, malformed) == Record(before, ClassifyLine(line));
    }
    a := Allowlist(entries, markers, malformed);
  }

  // ---------------------------------------------------------------------
  // What a line means
  // ---------------------------------------------------------------------

  predicate Blanks(s: string) {
    forall i :: 0 <= i < |s| ==> s[i] == ' ' || s[i] == '\t'
  }

  /** No line terminator of any kind. */
  ghost predicate NoBreak(s: string) {
    '\n' !in s && '\r' !in s && '\U{2028}' !in s && '\U{2029}' !in s
  }

  lemma OneLineMeaning(s: string)
    ensures OneLine(s) <==> NoBreak(s)
  {
  }

  /** A non-empty one-line text, a colon, blanks and decimal digits. */
  ghost predicate EntryShape(line: string, raw: string, gap: string, digits: string) {
    && line == raw + ":" + gap + digits
    && raw != "" && NoBreak(raw) && Blanks(gap) && digits != "" && Digits(digits, 10)
  }

  /** A hash sign, blanks, the approval word, blanks and a one-line text. */
  ghost predicate ApprovalShape(line: string, gap: string, gap2: string, payload: string) {
    && line == "#" + gap + "APPROVED-NEW:" + gap2 + payload
    && Blanks(gap) && Blanks(gap2) && payload != "" && NoBreak(payload) && payload[0] != ' ' && payload[0] != '\t'
  }

  ghost predicate IsEntry(line: string, path: string, count: nat) {
    exists raw, gap, digits :: EntryShape(line, raw, gap, digits) && path == Trim(raw) && count == Value(digits, 10)
  }

  ghost predicate IsApproval(line: string, payload: string) {
    exists gap, gap2 :: ApprovalShape(line, gap, gap2, payload)
  }

  ghost predicate IsBroken(line: string) {
    line != "" && line[0] != '#' && forall raw, gap, digits :: !EntryShape(line, raw, gap, digits)
  }

  lemma {:induction false} SkipBlanksExact(gap: string, s: string)
    requires Blanks(gap) && (s != "" ==> s[0] != ' ' && s[0] != '\t')
    ensures SkipBlanks(gap + s) == s
  {
    if gap == "" {
      assert gap + s == s;
    } else {
      assert (gap + s)[1..] == gap[1..] + s;
      SkipBlanksExact(gap[1..], s);
    }
  }

  lemma {:induction false} SkipBlanksSplit(s: string)
    ensures |SkipBlanks(s)| <= |s|
    ensures Blanks(s[..|s| - |SkipBlanks(s)|]) && s == s[..|s| - |SkipBlanks(s)|] + SkipBlanks(s)
    ensures SkipBlanks(s) != "" ==> SkipBlanks(s)[0] != ' ' && SkipBlanks(s)[0] != '\t'
  {
    if s != "" && (s[0] == ' ' || s[0] == '\t') {
      SkipBlanksSplit(s[1..]);
    }
  }

  lemma EntryColon(line: string, raw: string, gap: string, digits: string)
    requires EntryShape(line, raw, gap, digits)
    ensures LastIndexOf(line, ':') == |raw| && line[..|raw|] == raw && SkipBlanks(line[|raw| + 1..]) == digits
  {
    hide LastIndexOf, SkipBlanks, OneLine, NoBreak;
    assert ':' !in gap + digits;
    assert line == raw + [':'] + (gap + digits);
    LastIndexOfAt(raw, ':', gap + digits);
    assert line[|raw| + 1..] == gap + digits;
    assert IsDigit(digits[0], 10);
    SkipBlanksExact(gap, digits);
  }

  lemma ColonEntry(line: string)
    requires LastIndexOf(line, ':') >= 1 && OneLine(line[..LastIndexOf(line, ':')])
    requires var digits := SkipBlanks(line[LastIndexOf(line, ':') + 1..]); digits != "" && Digits(digits, 10)
    ensures var k := LastIndexOf(line, ':');
      var rest := line[k + 1..];
      var digits := SkipBlanks(rest);
      |digits| <= |rest| && EntryShape(line, line[..k], rest[..|rest| - |digits|], digits)
  {
    hide SkipBlanks, OneLine, LastIndexOf, EntryShape;
    var k := LastIndexOf(line, ':');
    LastIndexOfFound(line, ':');
    SkipBlanksSplit(line[k + 1..]);
    OneLineMeaning(line[..k]);
    EntryAt(line, k, SkipBlanks(line[k + 1..]));
  }

  lemma EntryAt(line: string, k: nat, digits: string)
    requires 1 <= k < |line| && line[k] == ':' && NoBreak(line[..k]) && |digits| <= |line| - (k + 1)
    requires digits != "" && Digits(digits, 10)
    requires var rest := line[k + 1..]; Blanks(rest[..|rest| - |digits|]) && rest == rest[..|rest| - |digits|] + digits
    ensures var rest := line[k + 1..]; EntryShape(line, line[..k], rest[..|rest| - |digits|], digits)
  {
    hide NoBreak, Blanks, Digits;
    var rest := line[k + 1..];
    var gap := rest[..|rest| - |digits|];
    assert line == line[..k] + ":" + rest;
    assert line[..k] + ":" + (gap + digits) == line[..k] + ":" + gap + digits;
  }

  lemma {:induction false} LastIndexOfFound(s: string, c: char)
    ensures LastIndexOf(s, c) >= 0 ==> s[LastIndexOf(s, c)] == c
  {
    if s != "" && s[|s| - 1] != c {
      LastIndexOfFound(s[..|s| - 1], c);
    }
  }

  /** A line is an entry exactly when it splits into path, colon and count. */
  lemma EntryMeaning(line: string, path: string, count: nat)
    requires line == "" || line[0] != '#'
    ensures ClassifyLine(line) == Entry(path, count) <==> IsEntry(line, path, count)
  {
    hide LastIndexOf, SkipBlanks, OneLine, Trim, MarkerPayload;
    if raw, gap, digits :| EntryShape(line, raw, gap, digits) && path == Trim(raw) && count == Value(digits, 10) {
      EntryColon(line, raw, gap, digits);
      OneLineMeaning(raw);
      assert !("#" <= line);
    }
    if ClassifyLine(line) == Entry(path, count) {
      ColonEntry(line);
    }
  }

  /** A line is malformed exactly when it is neither blank nor a comment and
      does not split so. */
  lemma MalformedMeaning(line: string, text: string)
    ensures ClassifyLine(line) == Malformed(text) <==> text == line && IsBroken(line)
  {
    hide LastIndexOf, SkipBlanks, OneLine, Trim, MarkerPayload;
    if line != "" && line[0] != '#' {
      assert !("#" <= line);
      if raw, gap, digits :| EntryShape(line, raw, gap, digits) {
        EntryColon(line, raw, gap, digits);
        OneLineMeaning(raw);
      }
      if !ClassifyLine(line).Malformed? {
        ColonEntry(line);
      }
    }
  }

  /** A line is an approval exactly when it is marked as one. */
  lemma ApprovalMeaning(line: string, payload: string)
    ensures ClassifyLine(line) == Marker(payload) <==> IsApproval(line, payload)
  {
    hide LastIndexOf, OneLine, Trim;
    if gap, gap2 :| ApprovalShape(line, gap, gap2, payload) {
      ApprovalReads(line, gap, gap2, payload);
    }
    if ClassifyLine(line) == Marker(payload) {
      ApprovalSplits(line, payload);
    }
  }

  lemma ApprovalReads(line: string, gap: string, gap2: string, payload: string)
    requires ApprovalShape(line, gap, gap2, payload)
    ensures "#" <= line && MarkerPayload(line) == Some(payload)
  {
    hide OneLine, SkipBlanks, NoBreak;
    OneLineMeaning(payload);
    var rest := APPROVED + (gap2 + payload);
    assert line[1..] == gap + rest;
    assert rest[0] == 'A';
    SkipBlanksExact(gap, rest);
    assert rest[|APPROVED|..] == gap2 + payload;
    SkipBlanksExact(gap2, payload);
    assert line[0] == '#';
  }

  lemma Regroup(line: string, s: string, gap: string, rest: string, t: string, gap2: string, payload: string)
    requires line != "" && line[0] == '#' && line[1..] == s && s == gap + rest && rest == APPROVED + t && t == gap2 + payload
    ensures line == "#" + gap + APPROVED + gap2 + payload
  {
    var word := APPROVED;
    assert line == "#" + (gap + (word + (gap2 + payload)));
    assert "#" + (gap + (word + (gap2 + payload))) == "#" + gap + word + gap2 + payload;
  }

  lemma ApprovalSplits(line: string, payload: string)
    requires "#" <= line && MarkerPayload(line) == Some(payload)
    ensures IsApproval(line, payload)
  {
    hide OneLine, SkipBlanks, NoBreak;
    OneLineMeaning(payload);
    var s := line[1..];
    SkipBlanksSplit(s);
    var rest := SkipBlanks(s);
    var gap := s[..|s| - |rest|];
    var t := rest[|APPROVED|..];
    SkipBlanksSplit(t);
    var gap2 := t[..|t| - |payload|];
    assert rest == APPROVED + t;
    Regroup(line, s, gap, rest, t, gap2, payload);
    assert ApprovalShape(line, gap, gap2, payload);
  }

  // ---------------------------------------------------------------------
  // What a text means
  // ---------------------------------------------------------------------

  /** Carriage returns are as good as not there. */
  lemma {:induction false} CarriageReturnsGo(a: string, b: string)
    ensures WithoutCR(a + "\r" + b) == WithoutCR(a + b)
  {
    var s := a + "\r" + b;
    if a == "" {
      assert s[1..] == b && a + b == b;
    } else {
      assert s[1..] == a[1..] + "\r" + b && (a + b)[1..] == a[1..] + b;
      CarriageReturnsGo(a[1..], b);
    }
  }

  /** The lines of a text. */
  function LinesOf(text: string): seq<string> {
    Split(WithoutCR(text), '\n')
  }

  ghost predicate SomeLine(lines: seq<string>, line: string) {
    exists i :: 0 <= i < |lines| && Trim(lines[i]) == line
  }

  lemma {:induction false} ParseMalformed(lines: seq<string>, a: Allowlist, text: string)
    ensures text in ParseLines(lines, a).malformed <==>
      text in a.malformed || (IsBroken(text) && SomeLine(lines, text))
    decreases |lines|
  {
    hide ClassifyLine, Trim, IsBroken;
    if lines != [] {
      var line := Trim(lines[0]);
      MalformedMeaning(line, line);
      MalformedMeaning(line, text);
      if ClassifyLine(line).Malformed? {
        MalformedMeaning(line, ClassifyLine(line).text);
      }
      ParseMalformed(lines[1..], Record(a, ClassifyLine(line)), text);
      SomeLineCons(lines, text);
    }
  }

  /** The malformed lines, in order, trimmed. */
  ghost function BrokenLines(lines: seq<string>): seq<string> {
    if lines == [] then [] else
      (if IsBroken(Trim(lines[0])) then [Trim(lines[0])] else []) + BrokenLines(lines[1..])
  }

  lemma {:induction false} ParseBroken(lines: seq<string>, a: Allowlist)
    ensures ParseLines(lines, a).malformed == a.malformed + BrokenLines(lines)
    decreases |lines|
  {
    hide ClassifyLine, Trim, IsBroken;
    if lines != [] {
      var line := Trim(lines[0]);
      MalformedMeaning(line, line);
      if ClassifyLine(line).Malformed? {
        MalformedMeaning(line, ClassifyLine(line).text);
      }
      ParseBroken(lines[1..], Record(a, ClassifyLine(line)));
      assert a.malformed + ([line] + BrokenLines(lines[1..])) == a.malformed + [line] + BrokenLines(lines[1..]);
      assert a.malformed + ([] + BrokenLines(lines[1..])) == a.malformed + BrokenLines(lines[1..]);
    }
  }

  lemma SomeLineCons(lines: seq<string>, line: string)
    requires lines != []
    ensures SomeLine(lines, line) <==> Trim(lines[0]) == line || SomeLine(lines[1..], line)
  {
    hide Trim;
    if i :| 0 <= i < |lines| && Trim(lines[i]) == line {
      assert i > 0 ==> lines[1..][i - 1] == lines[i];
    }
    if i :| 0 <= i < |lines[1..]| && Trim(lines[1..][i]) == line {
      assert lines[i + 1] == lines[1..][i];
    }
  }

  lemma {:induction false} ParseApprovals(lines: seq<string>, a: Allowlist, payload: string)
    ensures payload in ParseLines(lines, a).markers <==>
      payload in a.markers || exists i :: 0 <= i < |lines| && IsApproval(Trim(lines[i]), payload)
    decreases |lines|
  {
    hide ClassifyLine, Trim, IsApproval;
    if lines != [] {
      ApprovalMeaning(Trim(lines[0]), payload);
      ParseApprovals(lines[1..], Record(a, ClassifyLine(Trim(lines[0]))), payload);
      assert forall i :: 0 < i < |lines| ==> lines[1..][i - 1] == lines[i];
      assert forall i :: 0 <= i < |lines[1..]| ==> lines[i + 1] == lines[1..][i];
    }
  }

  /** The entry line is the last one for its path. */
  ghost predicate LastEntry(lines: seq<string>, i: nat, path: string, count: nat) {
    && i < |lines| && EntryLine(lines[i], path, count)
    && forall j, c :: i < j < |lines| ==> !EntryLine(lines[j], path, c)
  }

  ghost predicate EntryLine(raw: string, path: string, count: nat) {
    var line := Trim(raw);
    line != "" && line[0] != '#' && IsEntry(line, path, count)
  }

  lemma EntryLineMeaning(raw: string, path: string, count: nat)
    ensures ClassifyLine(Trim(raw)) == Entry(path, count) <==> EntryLine(raw, path, count)
  {
    hide LastIndexOf, SkipBlanks, OneLine, Trim, MarkerPayload, IsEntry;
    var line := Trim(raw);
    if line == "" || line[0] != '#' {
      EntryMeaning(line, path, count);
    } else {
      assert "#" <= line;
    }
  }

  ghost predicate Gives(lines: seq<string>, a: Allowlist, path: string, count: nat) {
    || (exists i: nat :: LastEntry(lines, i, path, count))
    || (path in a.entries && a.entries[path] == count && forall j, c :: 0 <= j < |lines| ==> !EntryLine(lines[j], path, c))
  }

  lemma {:induction false} ParseEntries(lines: seq<string>, a: Allowlist, path: string, count: nat)
    ensures path in ParseLines(lines, a).entries && ParseLines(lines, a).entries[path] == count <==> Gives(lines, a, path, count)
    decreases |lines|
  {
    hide ClassifyLine, EntryLine, Trim;
    if lines != [] {
      var a' := Record(a, ClassifyLine(Trim(lines[0])));
      ParseEntries(lines[1..], a', path, count);
      forall c
        ensures ClassifyLine(Trim(lines[0])) == Entry(path, c) <==> EntryLine(lines[0], path, c)
      {
        EntryLineMeaning(lines[0], path, c);
      }
      GivesCons(lines, a, a', path, count);
    }
  }

  lemma GivesCons(lines: seq<string>, a: Allowlist, a': Allowlist, path: string, count: nat)
    requires lines != []
    requires forall c :: EntryLine(lines[0], path, c) ==> a'.entries == a.entries[path := c]
    requires (forall c :: !EntryLine(lines[0], path, c)) ==>
      (path in a'.entries <==> path in a.entries) && (path in a.entries ==> a'.entries[path] == a.entries[path])
    ensures Gives(lines, a, path, count) <==> Gives(lines[1..], a', path, count)
  {
    hide EntryLine;
    var rest := lines[1..];
    assert forall i :: 0 <= i < |rest| ==> rest[i] == lines[i + 1];
    if i: nat :| LastEntry(lines, i, path, count) {
      if i > 0 {
        assert LastEntry(rest, i - 1, path, count);
      } else {
        assert forall j, c :: 0 <= j < |rest| ==> !EntryLine(rest[j], path, c);
      }
    }
    if i: nat :| LastEntry(rest, i, path, count) {
      LastEntryShift(lines, i, path, count);
    }
    if forall j, c :: 0 <= j < |rest| ==> !EntryLine(rest[j], path, c) {
      assert forall j, c :: 0 < j < |lines| ==> lines[j] == rest[j - 1] && !EntryLine(lines[j], path, c);
      if EntryLine(lines[0], path, count) {
        assert LastEntry(lines, 0, path, count);
      }
    }
  }

  lemma LastEntryShift(lines: seq<string>, i: nat, path: string, count: nat)
    requires lines != [] && LastEntry(lines[1..], i, path, count)
    ensures LastEntry(lines, i + 1, path, count)
  {
    hide EntryLine;
    assert forall j :: 0 < j < |lines| ==> lines[j] == lines[1..][j - 1];
  }

  /** Every text: which lines are malformed, which approvals stand in it, and
      that of several entries for one path the last one counts. */
  lemma ParseMeaning(text: string, line: string, path: string, count: nat)
    ensures Parse(text).malformed == BrokenLines(LinesOf(text))
    ensures line in Parse(text).malformed <==> IsBroken(line) && SomeLine(LinesOf(text), line)
    ensures line in Parse(text).markers <==>
      exists i :: 0 <= i < |LinesOf(text)| && IsApproval(Trim(LinesOf(text)[i]), line)
    ensures path in Parse(text).entries && Parse(text).entries[path] == count <==>
      exists i: nat :: LastEntry(LinesOf(text), i, path, count)
  {
    hide IsBroken, IsApproval, EntryLine, Trim, Split, WithoutCR;
    ParseBroken(LinesOf(text), EMPTY);
    assert [] + BrokenLines(LinesOf(text)) == BrokenLines(LinesOf(text));
    ParseMalformed(LinesOf(text), EMPTY, line);
    ParseApprovals(LinesOf(text), EMPTY, line);
    ParseEntries(LinesOf(text), EMPTY, path, count);
  }

  // ---------------------------------------------------------------------
  // Paths that survive the format
  // ---------------------------------------------------------------------

  predicate PathOk(p: string) {
    p != "" && Trimmed(p) && p[0] != '#' && OneLine(p)
  }

  function EntryText(path: string, count: nat): string {
    path + ": " + Numeral(count, 10)
  }

  /** A prefix of trimmed text, trimmed, starts alike and stays on its line. */
  lemma TrimmedPrefixOk(line: string, k: nat)
    requires 1 <= k <= |line| && !IsSpace(line[0]) && line[0] != '#' && OneLine(line[..k])
    ensures PathOk(Trim(line[..k]))
  {
    hide IsSpace, IsTerminator;
    var lead := line[..k];
    assert lead[0] == line[0];
    assert TrimStart(lead) == lead;
    var p := TrimEnd(lead);
    assert p == lead[..|p|] && p != "";
    assert p[0] == lead[0];
    assert forall i :: 0 <= i < |p| ==> p[i] == lead[i];
  }

  lemma ClassifiedPathOk(raw: string)
    requires ClassifyLine(Trim(raw)).Entry?
    ensures PathOk(ClassifyLine(Trim(raw)).path)
  {
    hide LastIndexOf, IsSpace, IsTerminator, PathOk, MarkerPayload, SkipBlanks, TrimStart, TrimEnd;
    var line := Trim(raw);
    assert "#" <= line <==> line[0] == '#';
    TrimmedPrefixOk(line, LastIndexOf(line, ':'));
  }

  lemma {:induction false} ParsedPathsOk(lines: seq<string>, a: Allowlist)
    requires forall p :: p in a.entries ==> PathOk(p)
    ensures forall p :: p in ParseLines(lines, a).entries ==> PathOk(p)
    decreases |lines|
  {
    hide ClassifyLine, Trim, PathOk;
    if lines != [] {
      if ClassifyLine(Trim(lines[0])).Entry? {
        ClassifiedPathOk(lines[0]);
      }
      ParsedPathsOk(lines[1..], Record(a, ClassifyLine(Trim(lines[0]))));
    }
  }

  lemma NumeralText(n: nat)
    ensures var s := Numeral(n, 10); s != "" && OneLine(s) && Trimmed(s) && ':' !in s
  {
    hide Numeral;
    var s := Numeral(n, 10);
    assert forall i :: 0 <= i < |s| ==> IsDigit(s[i], 10);
  }

  lemma SkipOneBlank(s: string)
    requires s != "" && !IsSpace(s[0])
    ensures SkipBlanks(" " + s) == s
  {
    assert (" " + s)[1..] == s;
  }

  lemma {:induction false} LastIndexOfAt(a: string, c: char, b: string)
    requires c !in b
    ensures LastIndexOf(a + [c] + b, c) == |a|
    decreases |b|
  {
    var s := a + [c] + b;
    if b != "" {
      assert s[..|s| - 1] == a + [c] + b[..|b| - 1];
      LastIndexOfAt(a, c, b[..|b| - 1]);
      assert s[|s| - 1] == b[|b| - 1] && b[|b| - 1] in b;
    }
  }

  lemma OneLineConcat(a: string, b: string)
    requires OneLine(a) && OneLine(b)
    ensures OneLine(a + b)
  {
  }

  lemma EntryTextShape(path: string, count: nat)
    requires PathOk(path)
    ensures var t := EntryText(path, count);
      t != "" && Trimmed(t) && OneLine(t) && t[0] == path[0] && LastIndexOf(t, ':') == |path|
  {
    hide LastIndexOf, IsSpace, IsTerminator, Numeral;
    NumeralText(count);
    var t, num := EntryText(path, count), Numeral(count, 10);
    assert t[0] == path[0];
    assert t[|t| - 1] == num[|num| - 1];
    assert t == path + [':'] + (" " + num);
    LastIndexOfAt(path, ':', " " + num);
    BlankIsOneLine();
    OneLineConcat(path, ": ");
    OneLineConcat(path + ": ", num);
  }

  lemma BlankIsOneLine()
    ensures OneLine(": ")
  {
  }

  /** An entry line is read back as the entry it was written for. */
  lemma EntryLineReads(path: string, count: nat)
    requires PathOk(path)
    ensures ClassifyLine(Trim(EntryText(path, count))) == Entry(path, count)
  {
    hide LastIndexOf, Trim, SkipBlanks, IsSpace, IsTerminator, Numeral, MarkerPayload;
    var t, num := EntryText(path, count), Numeral(count, 10);
    EntryTextShape(path, count);
    TrimmedStays(t);
    assert t[..|path|] == path;
    TrimmedStays(path);
    assert t[|path| + 1..] == " " + num;
    NumeralText(count);
    SkipOneBlank(num);
    NumeralValue(count, 10);
  }

  function MarkerText(payload: string): string {
    "# " + APPROVED + " " + payload
  }

  lemma MarkerPayloadReads(payload: string)
    requires payload != "" && !IsSpace(payload[0]) && OneLine(payload)
    ensures MarkerPayload(MarkerText(payload)) == Some(payload)
  {
    hide SkipBlanks, OneLine;
    var rest := APPROVED + (" " + payload);
    assert MarkerText(payload)[1..] == " " + rest;
    SkipOneBlank(rest);
    assert rest[|APPROVED|..] == " " + payload;
    SkipOneBlank(payload);
  }

  lemma MarkerLineReads(path: string, count: nat)
    requires PathOk(path)
    ensures ClassifyLine(Trim(MarkerText(EntryText(path, count)))) == Marker(EntryText(path, count))
  {
    hide LastIndexOf, EntryText, MarkerPayload, Trim, OneLine;
    var payload := EntryText(path, count);
    EntryTextShape(path, count);
    var m := MarkerText(payload);
    assert m[0] == '#' && m[|m| - 1] == payload[|payload| - 1];
    TrimmedStays(m);
    MarkerPayloadReads(payload);
  }

  /** An approval names one path and one count. */
  lemma EntryTextInjective(p: string, m: nat, q: string, n: nat)
    requires PathOk(p) && PathOk(q) && EntryText(p, m) == EntryText(q, n)
    ensures p == q && m == n
  {
    EntryLineReads(p, m);
    EntryLineReads(q, n);
  }

  // ---------------------------------------------------------------------
  // Rendering
  // ---------------------------------------------------------------------

  /** One arm of a live scan: paths with their counts, in rendering order. */
  type Scan = seq<(string, nat)>

  function RenderArm(scan: Scan, markers: set<string>): seq<string> {
    if scan == [] then [] else
      var text := EntryText(scan[0].0, scan[0].1);
      (if text in markers then [MarkerText(text)] else []) + [text] + RenderArm(scan[1..], markers)
  }

  /** `top` and `middle` are the header comments before either arm. */
  function RenderLines(top: seq<string>, src: Scan, middle: seq<string>, tests: Scan, markers: set<string>): seq<string> {
    top + (RenderArm(src, markers) + (middle + (RenderArm(tests, markers) + [""])))
  }

  function Render(top: seq<string>, src: Scan, middle: seq<string>, tests: Scan, markers: set<string>): string {
    Join(RenderLines(top, src, middle, tests, markers), '\n')
  }

  method RenderArmLines(scan: Scan, markers: set<string>, lines0: seq<string>) returns (lines: seq<string>)
    ensures lines == lines0 + RenderArm(scan, markers)
  {
    lines := lines0;
    for i := 0 to |scan|
      invariant lines + RenderArm(scan[i..], markers) == lines0 + RenderArm(scan, markers)
    {
      hide EntryText, MarkerText;
      assert scan[i..][0] == scan[i] && scan[i..][1..] == scan[i + 1..];
      var text := EntryText(scan[i].0, scan[i].1);
      ghost var rest := RenderArm(scan[i + 1..], markers);
      if text in markers {
        assert lines + ([MarkerText(text)] + [text] + rest) == lines + [MarkerText(text), text] + rest;
        lines := lines + [MarkerText(text), text];
      } else {
        assert lines + ([] + [text] + rest) == lines + [text] + rest;
        lines := lines + [text];
      }
    }
  }

  method RenderRawWriteAllowlist(top: seq<string>, src: Scan, middle: seq<string>, tests: Scan, markers: set<string>)
    returns (text: string)
    ensures text == Render(top, src, middle, tests, markers)
  {
    hide RenderArm, Join;
    var lines := RenderArmLines(src, markers, top);
    lines := RenderArmLines(tests, markers, lines + middle);
    lines := lines + [""];
    assert lines == RenderLines(top, src, middle, tests, markers);
    text := Join(lines, '\n');
  }

  // ---------------------------------------------------------------------
  // Round trip
  // ---------------------------------------------------------------------

  /** A header line is a blank or a comment that is not a marker. */
  predicate Inert(line: string) {
    '\n' !in line && '\r' !in line && (ClassifyLine(Trim(line)).Blank? || ClassifyLine(Trim(line)).Comment?)
  }

  predicate AllInert(lines: seq<string>) {
    forall i :: 0 <= i < |lines| ==> Inert(lines[i])
  }

  /** Blank, or a comment whose text does not start like an approval. */
  predicate HeaderLine(line: string) {
    '\n' !in line && '\r' !in line
    && (line == "" || (line[0] == '#' && !(APPROVED <= SkipBlanks(line[1..]))))
  }

  lemma {:induction false} SkipBlanksPrefix(a: string, b: string)
    requires a <= b && APPROVED <= SkipBlanks(a)
    ensures APPROVED <= SkipBlanks(b)
  {
    assert a != "" && b[0] == a[0];
    if a[0] == ' ' || a[0] == '\t' {
      SkipBlanksPrefix(a[1..], b[1..]);
    }
  }

  /** Such lines are inert, so a header made of them adds nothing. */
  lemma HeaderLineInert(line: string)
    requires HeaderLine(line)
    ensures Inert(line)
  {
    hide SkipBlanks, LastIndexOf;
    if line == "" {
      TrimmedStays("");
    } else {
      var t := Trim(line);
      CommentTrim(line);
      assert t[0] == '#';
      if APPROVED <= SkipBlanks(t[1..]) {
        SkipBlanksPrefix(t[1..], line[1..]);
      }
    }
  }

  lemma CommentTrim(line: string)
    requires line != "" && line[0] == '#'
    ensures Trim(line) != "" && Trim(line) <= line
  {
    assert !IsSpace('#');
    hide IsSpace, TrimEnd;
    assert TrimStart(line) == line;
  }

  lemma SkipBlank(s: string)
    ensures SkipBlanks(" " + s) == SkipBlanks(s)
  {
    assert (" " + s)[1..] == s;
  }

  /** A comment in a comment is one of them: the header can show what an
      approval looks like without being one. */
  lemma NestedCommentInert(text: string)
    requires '\n' !in text && '\r' !in text
    ensures Inert("#   #" + text)
  {
    var line, inner := "#   #" + text, "#" + text;
    assert SkipBlanks(inner) == inner;
    hide Inert, Trim, SkipBlanks;
    assert line[1..] == " " + (" " + (" " + inner));
    SkipBlank(inner);
    SkipBlank(" " + inner);
    SkipBlank(" " + (" " + inner));
    assert inner[0] == '#' && APPROVED[0] == 'A';
    HeaderLineInert(line);
  }

  predicate PathsOk(scan: Scan) {
    forall i :: 0 <= i < |scan| ==> PathOk(scan[i].0)
  }

  function Counts(scan: Scan, m: map<string, nat>): map<string, nat> {
    if scan == [] then m else Counts(scan[1..], m[scan[0].0 := scan[0].1])
  }

  /** The approvals that name an entry of the scan, path and count. */
  function Approvals(scan: Scan, markers: set<string>): set<string> {
    set i | 0 <= i < |scan| && EntryText(scan[i].0, scan[i].1) in markers :: EntryText(scan[i].0, scan[i].1)
  }

  lemma {:induction false} ParseConcat(a: seq<string>, b: seq<string>, acc: Allowlist)
    ensures ParseLines(a + b, acc) == ParseLines(b, ParseLines(a, acc))
    decreases |a|
  {
    hide ClassifyLine, Trim;
    if a == [] {
      assert a + b == b;
    } else {
      assert (a + b)[1..] == a[1..] + b;
      ParseConcat(a[1..], b, Record(acc, ClassifyLine(Trim(a[0]))));
    }
  }

  lemma {:induction false} ParseInert(lines: seq<string>, acc: Allowlist)
    requires AllInert(lines)
    ensures ParseLines(lines, acc) == acc
    decreases |lines|
  {
    hide ClassifyLine, Trim;
    if lines != [] {
      assert Inert(lines[0]);
      assert AllInert(lines[1..]);
      ParseInert(lines[1..], acc);
    }
  }

  lemma ApprovalsCons(scan: Scan, markers: set<string>)
    requires scan != []
    ensures var text := EntryText(scan[0].0, scan[0].1);
      Approvals(scan, markers) == (if text in markers then {text} else {}) + Approvals(scan[1..], markers)
  {
    hide EntryText;
    var text := EntryText(scan[0].0, scan[0].1);
    assert forall i :: 0 <= i < |scan[1..]| ==> scan[1..][i] == scan[i + 1];
    forall x | x in Approvals(scan, markers)
      ensures x in (if text in markers then {text} else {}) + Approvals(scan[1..], markers)
    {
      var i :| 0 <= i < |scan| && EntryText(scan[i].0, scan[i].1) in markers && x == EntryText(scan[i].0, scan[i].1);
      if i > 0 {
        assert scan[1..][i - 1] == scan[i];
      }
    }
    if text in markers {
      assert EntryText(scan[0].0, scan[0].1) in markers;
    }
  }

  lemma {:induction false} ParseArm(scan: Scan, markers: set<string>, acc: Allowlist)
    requires PathsOk(scan)
    ensures ParseLines(RenderArm(scan, markers), acc)
         == Allowlist(Counts(scan, acc.entries), acc.markers + Approvals(scan, markers), acc.malformed)
    decreases |scan|
  {
    hide ClassifyLine, Trim, EntryText, MarkerText, PathOk;
    if scan == [] {
      assert Approvals(scan, markers) == {};
    } else {
      var (path, count) := scan[0];
      assert PathOk(path);
      var text := EntryText(path, count);
      EntryLineReads(path, count);
      MarkerLineReads(path, count);
      var head := if text in markers then [MarkerText(text)] else [];
      var rest := RenderArm(scan[1..], markers);
      ApprovalsCons(scan, markers);
      ParseConcat(head + [text], rest, acc);
      ParseConcat(head, [text], acc);
      var acc1 := if text in markers then Record(acc, Marker(text)) else acc;
      assert ParseLines(head, acc) == acc1 by { ParseOne(MarkerText(text), acc); }
      ParseOne(text, acc1);
      ParseArm(scan[1..], markers, Record(acc1, Entry(path, count)));
    }
  }

  lemma ParseOne(line: string, acc: Allowlist)
    ensures ParseLines([line], acc) == Record(acc, ClassifyLine(Trim(line)))
    ensures ParseLines([], acc) == acc
  {
    hide ClassifyLine, Trim;
    assert [line][1..] == [];
  }

  lemma {:induction false} WithoutCRStays(s: string)
    requires '\r' !in s
    ensures WithoutCR(s) == s
  {
    if s != "" {
      WithoutCRStays(s[1..]);
      assert [s[0]] + s[1..] == s;
    }
  }

  ghost predicate PlainLines(lines: seq<string>) {
    forall i :: 0 <= i < |lines| ==> '\n' !in lines[i] && '\r' !in lines[i]
  }

  lemma {:induction false} JoinNoCR(lines: seq<string>)
    requires PlainLines(lines)
    ensures '\r' !in Join(lines, '\n')
  {
    if lines != [] {
      JoinNoCR(lines[1..]);
    }
  }

  lemma OneLineIsPlain(s: string)
    requires OneLine(s)
    ensures '\n' !in s && '\r' !in s
  {
  }

  lemma {:induction false} ArmPlain(scan: Scan, markers: set<string>)
    requires PathsOk(scan)
    ensures PlainLines(RenderArm(scan, markers))
  {
    hide EntryText, PathOk, OneLine;
    if scan != [] {
      var (path, count) := scan[0];
      assert PathOk(path);
      EntryTextShape(path, count);
      OneLineIsPlain(EntryText(path, count));
      ArmPlain(scan[1..], markers);
    }
  }

  /** Parsing a rendered allowlist gives the scanned counts, the approvals that
      still name a live entry, and no malformed line. */
  lemma RoundTrip(top: seq<string>, src: Scan, middle: seq<string>, tests: Scan, markers: set<string>)
    requires AllInert(top) && AllInert(middle) && PathsOk(src) && PathsOk(tests)
    ensures Parse(Render(top, src, middle, tests, markers))
         == Allowlist(Counts(tests, Counts(src, map[])), Approvals(src, markers) + Approvals(tests, markers), [])
  {
    hide ClassifyLine, Trim, RenderArm, ParseLines, Counts, Approvals, PathsOk, Join, Split, WithoutCR;
    var lines := RenderLines(top, src, middle, tests, markers);
    ArmPlain(src, markers);
    ArmPlain(tests, markers);
    assert PlainLines(lines);
    JoinNoCR(lines);
    WithoutCRStays(Join(lines, '\n'));
    SplitJoin(lines, '\n');
    var afterMiddle := RenderArm(tests, markers) + [""];
    ParseConcat(top, RenderArm(src, markers) + (middle + afterMiddle), EMPTY);
    ParseInert(top, EMPTY);
    ParseConcat(RenderArm(src, markers), middle + afterMiddle, EMPTY);
    ParseArm(src, markers, EMPTY);
    var acc := ParseLines(RenderArm(src, markers), EMPTY);
    ParseConcat(middle, afterMiddle, acc);
    ParseInert(middle, acc);
    ParseConcat(RenderArm(tests, markers), [""], acc);
    ParseArm(tests, markers, acc);
    EmptyLineInert();
    ParseInert([""], ParseLines(RenderArm(tests, markers), acc));
    assert {} + Approvals(src, markers) == Approvals(src, markers);
  }

  lemma EmptyLineInert()
    ensures AllInert([""])
  {
    TrimmedStays("");
  }

  lemma {:induction false} CountsKeys(scan: Scan, m: map<string, nat>)
    ensures forall p :: p in m ==> p in Counts(scan, m)
    ensures forall i :: 0 <= i < |scan| ==> scan[i].0 in Counts(scan, m)
    ensures forall p :: p in Counts(scan, m) ==> p in m || exists i :: 0 <= i < |scan| && scan[i].0 == p
    decreases |scan|
  {
    if scan != [] {
      var m' := m[scan[0].0 := scan[0].1];
      CountsKeys(scan[1..], m');
      assert forall i :: 0 <= i < |scan[1..]| ==> scan[1..][i] == scan[i + 1];
      forall i | 0 <= i < |scan|
        ensures scan[i].0 in Counts(scan, m)
      {
        if i > 0 {
          assert scan[1..][i - 1] == scan[i];
        }
      }
    }
  }

  /** The entries come back exactly when every path survives the format:
      non-empty, trimmed, on one line and not starting like a comment. */
  lemma EntriesRoundTripIff(top: seq<string>, src: Scan, middle: seq<string>, tests: Scan, markers: set<string>)
    requires AllInert(top) && AllInert(middle)
    ensures Parse(Render(top, src, middle, tests, markers)).entries == Counts(tests, Counts(src, map[]))
      <==> PathsOk(src) && PathsOk(tests)
  {
    hide ClassifyLine, Trim, Render, PathOk, Split, WithoutCR;
    var text := Render(top, src, middle, tests, markers);
    if PathsOk(src) && PathsOk(tests) {
      RoundTrip(top, src, middle, tests, markers);
    } else {
      ParsedPathsOk(Split(WithoutCR(text), '\n'), EMPTY);
      CountsKeys(src, map[]);
      CountsKeys(tests, Counts(src, map[]));
    }
  }
}
