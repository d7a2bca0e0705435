/** The pax extended header as its writer means it, and what the line-by-line
    reader makes of it. */
module PaxHeader {
  import opened Text
  import opened Tar

  /** One `<length> <key>=<value>` record of a pax extended header. The length
      delimits the record, so key and value may hold newlines. */
  datatype PaxRecord = PaxRecord(length: string, key: string, value: string)

  predicate PaxOk(p: PaxRecord) {
    && p.length != "" && ' ' !in p.length && '\n' !in p.length
    && p.key != "" && '=' !in p.key
  }

  predicate AllPaxOk(ps: seq<PaxRecord>) {
    forall i :: 0 <= i < |ps| ==> PaxOk(ps[i])
  }

  predicate NoPath(ps: seq<PaxRecord>) {
    forall i :: 0 <= i < |ps| ==> ps[i].key != "path"
  }

  function PaxLineText(p: PaxRecord): string {
    p.length + " " + p.key + "=" + p.value
  }

  function PaxText(ps: seq<PaxRecord>): string {
    if ps == [] then "" else PaxLineText(ps[0]) + "\n" + PaxText(ps[1..])
  }

  /** The length is that of the whole record (of ASCII text). */
  predicate Measured(p: PaxRecord) {
    p.length == Numeral(|PaxLineText(p)| + 1, 10)
  }

  /** The first path of a header. */
  function FirstPath(ps: seq<PaxRecord>): Option<string> {
    if ps == [] then None else if ps[0].key == "path" then Some(ps[0].value) else FirstPath(ps[1..])
  }

  /** The path that a header gives: in the format the last one wins. */
  function LastPath(ps: seq<PaxRecord>): Option<string> {
    if ps == [] then None
    else if ps[|ps| - 1].key == "path" then Some(ps[|ps| - 1].value)
    else LastPath(ps[..|ps| - 1])
  }

  // ---------------------------------------------------------------------
  // Lines
  // ---------------------------------------------------------------------

  ghost predicate PathLine(line: string, length: string, value: string) {
    length != "" && ' ' !in length && line == length + " " + ("path" + "=" + value)
  }

  lemma PaxLineReads(length: string, key: string, value: string)
    requires length != "" && ' ' !in length && key != "" && '=' !in key
    ensures PaxLine(length + " " + key + "=" + value) == if key == "path" then Some(value) else None
  {
    hide IndexOf;
    var line := length + " " + key + "=" + value;
    assert line[..|length|] == length;
    IndexOfAt(line, ' ', |length|);
    var record := key + "=" + value;
    assert line[|length| + 1..] == record;
    assert record[..|key|] == key;
    IndexOfAt(record, '=', |key|);
    assert record[|key| + 1..] == value;
  }

  lemma NoEqualsNoPath(length: string, rest: string)
    requires length != "" && ' ' !in length && '=' !in rest
    ensures PaxLine(length + " " + rest) == None
  {
    var line := length + " " + rest;
    assert line[..|length|] == length;
    IndexOfAt(line, ' ', |length|);
    assert line[|length| + 1..] == rest;
  }

  lemma SplitAt(s: string, c: char)
    requires c in s
    ensures s == s[..IndexOf(s, c)] + [c] + s[IndexOf(s, c) + 1..]
  {
  }

  lemma PathLineOf(line: string)
    requires PaxLine(line).Some?
    ensures PathLine(line, line[..IndexOf(line, ' ')], PaxLine(line).value)
  {
    var space := IndexOf(line, ' ');
    var record := line[space + 1..];
    SplitAt(line, ' ');
    SplitAt(record, '=');
    assert record[..IndexOf(record, '=')] == "path";
  }

  /** A line gives a path exactly when it looks like a path record. */
  lemma PaxLineIff(line: string, value: string)
    ensures PaxLine(line) == Some(value) <==> exists length :: PathLine(line, length, value)
  {
    hide PaxLine, IndexOf;
    if length :| PathLine(line, length, value) {
      assert length + " " + "path" + "=" + value == length + " " + ("path" + "=" + value);
      PaxLineReads(length, "path", value);
    }
    if PaxLine(line) == Some(value) {
      PathLineOf(line);
    }
  }

  lemma {:induction false} FirstPathLineConcat(a: seq<string>, b: seq<string>)
    ensures FirstPathLine(a + b) == if FirstPathLine(a).Some? then FirstPathLine(a) else FirstPathLine(b)
  {
    hide PaxLine;
    if a == [] {
      assert a + b == b;
    } else {
      assert (a + b)[1..] == a[1..] + b;
      FirstPathLineConcat(a[1..], b);
    }
  }

  lemma PaxPathConcat(a: string, b: string)
    ensures PaxPath(a + "\n" + b) == if PaxPath(a).Some? then PaxPath(a) else PaxPath(b)
  {
    hide FirstPathLine;
    SplitConcat(a, b, '\n');
    FirstPathLineConcat(Split(a, '\n'), Split(b, '\n'));
  }

  lemma {:induction false} FirstPathLineOneLine(lines: seq<string>, v: string)
    requires forall i :: 0 <= i < |lines| ==> '\n' !in lines[i]
    requires FirstPathLine(lines) == Some(v)
    ensures '\n' !in v
  {
    hide PaxLine;
    PaxLineSuffix(lines[0]);
    if PaxLine(lines[0]).None? {
      FirstPathLineOneLine(lines[1..], v);
    }
  }

  // ---------------------------------------------------------------------
  // What the reader takes
  // ---------------------------------------------------------------------

  function Cut(s: string): string {
    s[..IndexOf(s, '\n')]
  }

  /** A path line inside a record, after its first newline. */
  function Inside(p: PaxRecord): Option<string> {
    FirstPathLine(Split(PaxLineText(p), '\n')[1..])
  }

  /** The first such line in front of the first path, or in the whole header
      when it has no path. */
  function StrayPath(ps: seq<PaxRecord>): Option<string> {
    if ps == [] || ps[0].key == "path" then None
    else if Inside(ps[0]).Some? then Inside(ps[0])
    else StrayPath(ps[1..])
  }

  lemma CutAfter(lead: string, s: string)
    requires '\n' !in lead
    ensures Cut(lead + s) == lead + Cut(s)
  {
    var k := IndexOf(s, '\n');
    var t := lead + s;
    assert t[..|lead| + k] == lead + s[..k];
    if k < |s| {
      assert t[|lead| + k] == '\n';
      IndexOfAt(t, '\n', |lead| + k);
    } else {
      assert '\n' !in t;
    }
  }

  lemma CutBefore(s: string, after: string)
    requires '\n' in s
    ensures Cut(s + after) == Cut(s)
  {
    var k := IndexOf(s, '\n');
    assert (s + after)[..k] == s[..k];
    IndexOfAt(s + after, '\n', k);
  }

  lemma OpeningLine(p: PaxRecord)
    requires PaxOk(p)
    ensures Split(PaxLineText(p), '\n')[0] ==
      if '\n' in p.key then p.length + " " + Cut(p.key) else p.length + " " + p.key + "=" + Cut(p.value)
  {
    SplitHead(PaxLineText(p), '\n');
    assert Split(PaxLineText(p), '\n')[0] == Cut(PaxLineText(p));
    hide Split, Cut;
    if '\n' in p.key {
      assert PaxLineText(p) == (p.length + " ") + (p.key + ("=" + p.value));
      CutAfter(p.length + " ", p.key + ("=" + p.value));
      CutBefore(p.key, "=" + p.value);
    } else {
      CutAfter(p.length + " " + p.key + "=", p.value);
    }
  }

  lemma RecordTaken(p: PaxRecord)
    requires PaxOk(p)
    ensures PaxPath(PaxLineText(p)) == if p.key == "path" then Some(Cut(p.value)) else Inside(p)
  {
    hide Split, PaxLine, Cut;
    OpeningLine(p);
    if '\n' in p.key {
      assert '=' !in Cut(p.key) by { CutPrefix(p.key); }
      NoEqualsNoPath(p.length, Cut(p.key));
      assert p.key != "path";
    } else {
      PaxLineReads(p.length, p.key, Cut(p.value));
    }
  }

  lemma CutPrefix(s: string)
    ensures Cut(s) <= s
  {
  }

  /** Of every header the reader takes the first path line: one that lies inside
      a record before the first path, or else that path up to a newline. */
  lemma {:induction false} PaxPathTaken(ps: seq<PaxRecord>)
    requires AllPaxOk(ps)
    ensures PaxPath(PaxText(ps)) ==
      if StrayPath(ps).Some? then StrayPath(ps)
      else if FirstPath(ps).Some? then Some(Cut(FirstPath(ps).value)) else None
  {
    if ps == [] {
      assert PaxLine("") == None;
    } else {
      hide PaxPath, Inside, Cut, PaxLineText, PaxOk;
      assert PaxOk(ps[0]);
      RecordTaken(ps[0]);
      PaxPathConcat(PaxLineText(ps[0]), PaxText(ps[1..]));
      PaxPathTaken(ps[1..]);
    }
  }

  lemma {:induction false} StrayOneLine(ps: seq<PaxRecord>, v: string)
    requires StrayPath(ps) == Some(v)
    ensures '\n' !in v
  {
    hide FirstPathLine, Split, PaxLineText;
    if Inside(ps[0]).Some? {
      FirstPathLineOneLine(Split(PaxLineText(ps[0]), '\n')[1..], v);
    } else {
      StrayOneLine(ps[1..], v);
    }
  }

  lemma CutStays(s: string)
    ensures Cut(s) == s <==> '\n' !in s
  {
    var k := IndexOf(s, '\n');
    assert k == |s| ==> s[..k] == s;
  }

  /** The reader gives the first path of a header back exactly when it is
      newline-free and no other path line stands before it. */
  lemma PaxNewline(ps: seq<PaxRecord>)
    requires AllPaxOk(ps)
    ensures PaxPath(PaxText(ps)) == FirstPath(ps) <==>
      && (FirstPath(ps).Some? ==> '\n' !in FirstPath(ps).value)
      && (StrayPath(ps) == None || StrayPath(ps) == FirstPath(ps))
  {
    hide PaxPath, PaxText, FirstPath, StrayPath, Cut;
    PaxPathTaken(ps);
    if FirstPath(ps).Some? {
      CutStays(FirstPath(ps).value);
    }
    if StrayPath(ps).Some? {
      StrayOneLine(ps, StrayPath(ps).value);
    }
  }

  /** The reader agrees with the format, in which the last path wins, exactly
      when what stands first is that path. */
  lemma PaxLastWinsIff(ps: seq<PaxRecord>)
    requires AllPaxOk(ps)
    ensures PaxPath(PaxText(ps)) == LastPath(ps) <==>
      if StrayPath(ps).Some? then StrayPath(ps) == LastPath(ps)
      else FirstPath(ps).Some? ==> LastPath(ps) == Some(Cut(FirstPath(ps).value))
  {
    hide PaxPath, PaxText, StrayPath, Cut;
    PaxPathTaken(ps);
    SomePath(ps);
  }

  lemma {:induction false} SomePath(ps: seq<PaxRecord>)
    ensures FirstPath(ps) == None <==> NoPath(ps)
    ensures LastPath(ps) == None <==> NoPath(ps)
  {
    if ps != [] {
      FirstNone(ps);
      LastNone(ps);
    }
  }

  lemma {:induction false} FirstNone(ps: seq<PaxRecord>)
    ensures FirstPath(ps) == None <==> NoPath(ps)
  {
    if ps != [] {
      FirstNone(ps[1..]);
      assert forall i :: 0 < i < |ps| ==> ps[i] == ps[1..][i - 1];
    }
  }

  lemma {:induction false} LastNone(ps: seq<PaxRecord>)
    ensures LastPath(ps) == None <==> NoPath(ps)
  {
    if ps != [] {
      var n := |ps| - 1;
      LastNone(ps[..n]);
      assert forall i :: 0 <= i < n ==> ps[i] == ps[..n][i];
    }
  }

  /** The path record after records without a path decides, whatever follows it. */
  lemma {:induction false} PaxPathFinds(before: seq<PaxRecord>, p: PaxRecord, after: string)
    requires PaxOk(p) && p.key == "path" && '\n' !in p.value
    requires AllPaxOk(before) && NoPath(before) && (StrayPath(before) == None || StrayPath(before) == Some(p.value))
    ensures PaxPath(PaxText(before) + PaxLineText(p) + "\n" + after) == Some(p.value)
  {
    hide PaxPath, Inside, Cut, PaxLineText, PaxOk;
    var tail := PaxLineText(p) + "\n" + after;
    if before == [] {
      assert PaxText(before) + PaxLineText(p) + "\n" + after == tail;
      RecordTaken(p);
      CutStays(p.value);
      PaxPathConcat(PaxLineText(p), after);
    } else {
      var q, rest := before[0], before[1..];
      assert PaxOk(q) && q.key != "path";
      RecordTaken(q);
      PaxPathConcat(PaxLineText(q), PaxText(rest) + PaxLineText(p) + "\n" + after);
      assert PaxText(before) + PaxLineText(p) + "\n" + after
          == PaxLineText(q) + "\n" + (PaxText(rest) + PaxLineText(p) + "\n" + after);
      if Inside(q).None? {
        PaxPathFinds(rest, p, after);
      }
    }
  }

  // ---------------------------------------------------------------------
  // Headers that are read differently
  // ---------------------------------------------------------------------

  const COMMENT := PaxRecord("22", "comment", "x\n9 path=b")

  lemma CommentText()
    ensures PaxLineText(COMMENT) == "22 comment=x" + "\n" + "9 path=b"
    ensures PaxOk(COMMENT) && Measured(COMMENT)
  {
    assert Numeral(2, 10) == "2";
    assert Numeral(22, 10) == "22";
  }

  lemma TwoLines(p: PaxRecord, a: string, b: string)
    requires PaxLineText(p) == a + "\n" + b && '\n' !in a && '\n' !in b
    ensures Inside(p) == PaxLine(b)
  {
    hide PaxLineText, PaxLine, Split;
    SplitFirst(a, b, '\n');
    SplitOne(b, '\n');
    assert ([a] + [b])[1..] == [b] && [b][1..] == [];
    assert FirstPathLine([]) == None;
    assert FirstPathLine([b]) == PaxLine(b);
  }

  lemma CommentInside()
    ensures Inside(COMMENT) == Some("b")
  {
    hide PaxLineText, PaxLine, Inside;
    CommentText();
    TwoLines(COMMENT, "22 comment=x", "9 path=b");
    PaxLineReads("9", "path", "b");
    assert "9" + " " + "path" + "=" + "b" == "9 path=b";
  }

  /** A comment with a newline in it hides a path line. */
  lemma CommentGivesPath()
    ensures PaxOk(COMMENT) && Measured(COMMENT) && FirstPath([COMMENT]) == None
    ensures PaxPath(PaxText([COMMENT])) == Some("b")
  {
    hide PaxPath, PaxText, Inside, PaxOk, Measured;
    CommentText();
    CommentInside();
    PaxPathTaken([COMMENT]);
  }

  /** So a newline-free path behind it does not come back. */
  lemma CommentHidesPath()
    ensures var ps := [COMMENT, PaxRecord("9", "path", "a")];
      && AllPaxOk(ps) && Measured(ps[0]) && Measured(ps[1])
      && FirstPath(ps) == LastPath(ps) == Some("a")
      && PaxPath(PaxText(ps)) == Some("b")
  {
    hide PaxPath, PaxText, Inside;
    CommentText();
    CommentInside();
    PaxPathTaken([COMMENT, PaxRecord("9", "path", "a")]);
  }

  /** A header with two paths of which the reader takes the wrong one. */
  lemma PaxFirstTaken()
    ensures var ps := [PaxRecord("9", "path", "a"), PaxRecord("9", "path", "b")];
      && AllPaxOk(ps) && Measured(ps[0]) && Measured(ps[1])
      && LastPath(ps) == Some("b") && PaxPath(PaxText(ps)) == Some("a")
  {
    hide PaxPath, PaxText;
    var ps := [PaxRecord("9", "path", "a"), PaxRecord("9", "path", "b")];
    PaxPathTaken(ps);
    CutStays("a");
  }
}
