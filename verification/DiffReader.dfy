/** The zero-context unified-diff reader of the test-tmpdir gate, and the
    edit scripts whose diffs it reads back. */
module DiffReader {
  import opened Text

  datatype Added = Added(file: string, line: nat, content: string)

  // ---------------------------------------------------------------------
  // The reader
  // ---------------------------------------------------------------------

  function Chop(s: string): string {
    if s != "" && s[|s| - 1] == '\r' then s[..|s| - 1] else s
  }

  function ChopAll(lines: seq<string>): (r: seq<string>)
    ensures |r| == |lines| && forall i :: 0 <= i < |r| ==> r[i] == Chop(lines[i])
  {
    seq(|lines|, i requires 0 <= i < |lines| => Chop(lines[i]))
  }

  /** Splitting at /\r?\n/: only a carriage return before a newline goes. */
  function Lines(text: string): seq<string> {
    var parts := Split(text, '\n');
    ChopAll(parts[..|parts| - 1]) + parts[|parts| - 1..]
  }

  /** The first number that directly follows a plus sign, or 0. */
  function PlusNumber(s: string): nat {
    if |s| < 2 then 0
    else if s[0] == '+' && IsDigit(s[1], 10) then Value(TakeDigits(s[1..], 10), 10)
    else PlusNumber(s[1..])
  }

  function DropB(path: string): string {
    if "b/" <= path then path[2..] else path
  }

  function Read(lines: seq<string>, file: string, n: nat): seq<Added> {
    if lines == [] then [] else
      var l, rest := lines[0], lines[1..];
      if "+++ " <= l then Read(rest, DropB(l[4..]), n)
      else if "@@ " <= l then Read(rest, file, PlusNumber(l))
      else if "--- " <= l then Read(rest, file, n)
      else if "+" <= l then [Added(file, n, l[1..])] + Read(rest, file, n + 1)
      else Read(rest, file, n)
  }

  method ParseUnifiedZeroAddedLines(diffOutput: string) returns (added: seq<Added>)
    ensures added == Read(Lines(diffOutput), "", 0)
  {
    added := [];
    var currentFile, currentLine: nat := "", 0;
    var lines := Lines(diffOutput);
    for i := 0 to |lines|
      invariant added + Read(lines[i..], currentFile, currentLine) == Read(lines, "", 0)
    {
      hide PlusNumber, Lines;
      var rawLine := lines[i];
      assert lines[i..][0] == rawLine && lines[i..][1..] == lines[i + 1..];
      if "+++ " <= rawLine {
        currentFile := DropB(rawLine[4..]);
      } else if "@@ " <= rawLine {
        currentLine := PlusNumber(rawLine);
      } else if !("--- " <= rawLine) && "+" <= rawLine {
        added := added + [Added(currentFile, currentLine, rawLine[1..])];
        currentLine := currentLine + 1;
      }
    }
  }

  // ---------------------------------------------------------------------
  // Diffs as structured lines
  // ---------------------------------------------------------------------

  /** `Meta` is any line the format uses for something else: `diff --git`,
      index and mode lines, the old-file header, removed lines and the
      no-newline marker. `Deleted` is the new-file header of a deleted file. */
  datatype DiffLine =
    | Meta(text: string)
    | NewFile(path: string)
    | Deleted
    | Hunk(oldRange: string, start: nat, tail: string)
    | Plus(content: string)

  const NULL_FILE := "/dev/null"

  function LineText(d: DiffLine): string {
    match d
    case Meta(text) => text
    case NewFile(path) => "+++ b/" + path
    case Deleted => "+++ " + NULL_FILE
    case Hunk(oldRange, start, tail) => "@@ -" + oldRange + " +" + Numeral(start, 10) + tail
    case Plus(content) => "+" + content
  }

  predicate LineOk(d: DiffLine) {
    match d
    case Meta(text) => '\n' !in text && !("+" <= text) && !("@@ " <= text)
    case NewFile(path) => '\n' !in path && (path != "" ==> path[|path| - 1] != '\r')
    case Deleted => true
    case Hunk(oldRange, start, tail) =>
      && '\n' !in oldRange && '+' !in oldRange
      && '\n' !in tail && (tail != "" ==> !IsDigit(tail[0], 10))
    case Plus(content) => '\n' !in content
  }

  /** The entries the diff's author means: every added line, in its file, numbered
      from the start of its hunk. */
  function Meant(ds: seq<DiffLine>, file: string, n: nat): seq<Added> {
    if ds == [] then [] else
      match ds[0]
      case Meta(_) => Meant(ds[1..], file, n)
      case NewFile(path) => Meant(ds[1..], path, n)
      case Deleted => Meant(ds[1..], NULL_FILE, n)
      case Hunk(_, start, _) => Meant(ds[1..], file, start)
      case Plus(content) => [Added(file, n, content)] + Meant(ds[1..], file, n + 1)
  }

  function RawLines(ds: seq<DiffLine>): (r: seq<string>)
    ensures |r| == |ds| && forall i :: 0 <= i < |r| ==> r[i] == LineText(ds[i])
  {
    seq(|ds|, i requires 0 <= i < |ds| => LineText(ds[i]))
  }

  function DiffText(ds: seq<DiffLine>): string {
    Join(RawLines(ds) + [""], '\n')
  }

  predicate AllOk(ds: seq<DiffLine>) {
    forall i :: 0 <= i < |ds| ==> LineOk(ds[i])
  }

  /** An added line that looks like a file header once its plus is in front. */
  predicate HeaderLike(content: string) {
    "++ " <= content
  }

  lemma NumeralNoNewline(n: nat)
    ensures '\n' !in Numeral(n, 10)
  {
    var s := Numeral(n, 10);
    assert forall i :: 0 <= i < |s| ==> IsDigit(s[i], 10);
  }

  lemma LineTextOk(d: DiffLine)
    requires LineOk(d)
    ensures '\n' !in LineText(d)
  {
    if d.Hunk? {
      NumeralNoNewline(d.start);
    }
  }

  /** The text splits back into its lines, each without a trailing carriage return. */
  lemma DiffLines(ds: seq<DiffLine>)
    requires AllOk(ds)
    ensures Lines(DiffText(ds)) == ChopAll(RawLines(ds)) + [""]
  {
    var parts := RawLines(ds) + [""];
    forall i | 0 <= i < |parts|
      ensures '\n' !in parts[i]
    {
      if i < |ds| {
        LineTextOk(ds[i]);
      }
    }
    SplitJoin(parts, '\n');
    assert parts[..|parts| - 1] == RawLines(ds);
  }

  /** No plus sign with a digit behind it: the number is 0. */
  lemma {:induction false} NoPlusNumber(s: string)
    requires forall i :: 0 <= i < |s| - 1 && s[i] == '+' ==> !('0' <= s[i + 1] <= '9')
    ensures PlusNumber(s) == 0
  {
    if |s| >= 2 {
      assert s[0] == '+' ==> !('0' <= s[0 + 1] <= '9');
      forall i | 0 <= i < |s[1..]| - 1 && s[1..][i] == '+'
        ensures !('0' <= s[1..][i + 1] <= '9')
      {
        assert s[i + 1] == '+' && s[1..][i + 1] == s[i + 1 + 1];
      }
      NoPlusNumber(s[1..]);
    }
  }

  lemma {:induction false} PlusNumberAt(lead: string, start: nat, tail: string)
    requires '+' !in lead && (tail != "" ==> !IsDigit(tail[0], 10))
    ensures PlusNumber(lead + "+" + Numeral(start, 10) + tail) == start
    decreases |lead|
  {
    var num := Numeral(start, 10);
    var s := lead + "+" + num + tail;
    if lead == "" {
      assert s[1..] == num + tail;
      assert s[1] == num[0] && IsDigit(num[0], 10);
      TakeDigitsExact(num, tail, 10);
      NumeralValue(start, 10);
    } else {
      assert s[1..] == lead[1..] + "+" + num + tail;
      assert s[0] == lead[0];
      PlusNumberAt(lead[1..], start, tail);
    }
  }

  lemma ChopTail(lead: string, last: char, tail: string)
    requires last != '\r'
    ensures Chop(lead + [last] + tail) == lead + [last] + Chop(tail)
  {
    var s := lead + [last] + tail;
    if tail == "" {
      assert s == lead + [last] && s[|s| - 1] == last;
    } else {
      assert s[|s| - 1] == tail[|tail| - 1];
    }
  }

  lemma ChopHead(tail: string)
    ensures Chop(tail) != "" ==> Chop(tail)[0] == tail[0]
    ensures tail == "" ==> Chop(tail) == ""
  {
  }

  lemma HunkReads(d: DiffLine)
    requires LineOk(d) && d.Hunk?
    ensures var l := Chop(LineText(d)); "@@ " <= l && !("+++ " <= l) && PlusNumber(l) == d.start
  {
    hide PlusNumber, Chop;
    var lead, num := "@@ -" + d.oldRange + " ", Numeral(d.start, 10);
    var n := |num| - 1;
    assert num == num[..n] + [num[n]] && IsDigit(num[n], 10);
    assert LineText(d) == (lead + "+" + num[..n]) + [num[n]] + d.tail;
    ChopTail(lead + "+" + num[..n], num[n], d.tail);
    ChopHead(d.tail);
    var l := Chop(LineText(d));
    assert l == lead + "+" + num + Chop(d.tail) && l[0] == '@' && "+++ "[0] == '+';
    PlusNumberAt(lead, d.start, Chop(d.tail));
  }

  lemma OtherReads(d: DiffLine)
    requires LineOk(d) && !d.Hunk?
    ensures var l := Chop(LineText(d));
      match d
      case Meta(_) => !("+" <= l) && !("@@ " <= l)
      case NewFile(path) => "+++ " <= l && DropB(l[4..]) == path
      case Deleted => "+++ " <= l && DropB(l[4..]) == NULL_FILE
      case Plus(content) => (if HeaderLike(content) then "+++ " <= l else !("+++ " <= l)) && "+" <= l
                            && !("@@ " <= l) && !("--- " <= l) && l[1..] == Chop(content)
  {
    match d
    case Meta(_) =>
    case NewFile(path) =>
      var t := "+++ b/" + path;
      assert t == "+++ " + ("b/" + path);
      if path == "" {
        assert t[|t| - 1] == '/';
      } else {
        assert t[|t| - 1] == path[|path| - 1];
      }
      assert t[4..] == "b/" + path;
      assert ("b/" + path)[2..] == path;
    case Deleted =>
      var t := "+++ " + NULL_FILE;
      assert t[|t| - 1] == 'l' && t[4..] == NULL_FILE && NULL_FILE[0] == '/';
    case Plus(content) =>
      PlusReads(content);
      assert ("+" + Chop(content))[1..] == Chop(content);
      assert "@@ "[0] == '@' && "--- "[0] == '-' && ("+" + Chop(content))[0] == '+';
  }

  lemma PrefixCons(x: char, p: string, s: string)
    ensures [x] + p <= [x] + s <==> p <= s
  {
    if [x] + p <= [x] + s {
      forall j | 0 <= j < |p|
        ensures p[j] == s[j]
      {
        assert ([x] + p)[j + 1] == ([x] + s)[j + 1];
      }
    }
  }

  lemma PlusReads(content: string)
    ensures var l := Chop("+" + content);
      l == "+" + Chop(content) && ("+++ " <= l <==> HeaderLike(content))
  {
    var c, t := Chop(content), "+" + content;
    if content == "" {
      assert t[|t| - 1] == '+';
    } else {
      assert t[|t| - 1] == content[|content| - 1];
    }
    assert Chop(t) == "+" + c;
    assert "+++ " == ['+'] + "++ ";
    PrefixCons('+', "++ ", c);
    if HeaderLike(content) {
      assert content[2] == "++ "[2] == ' ';
      assert c[0] == content[0] && c[1] == content[1] && c[2] == content[2];
    }
  }

  function ChopContents(es: seq<Added>): (r: seq<Added>)
    ensures |r| == |es| && forall i :: 0 <= i < |r| ==> r[i] == es[i].(content := Chop(es[i].content))
  {
    seq(|es|, i requires 0 <= i < |es| => es[i].(content := Chop(es[i].content)))
  }

  lemma ChopCons(e: Added, es: seq<Added>)
    ensures ChopContents([e] + es) == [e.(content := Chop(e.content))] + ChopContents(es)
  {
  }

  ghost predicate NoHeaderLike(ds: seq<DiffLine>) {
    forall i :: 0 <= i < |ds| && ds[i].Plus? ==> !HeaderLike(ds[i].content)
  }

  function HeaderFile(d: DiffLine, file: string): string {
    if d.NewFile? then d.path else if d.Deleted? then NULL_FILE else file
  }

  /** Without header-like lines, all that is lost is a trailing carriage return. */
  lemma {:induction false} ReadMeant(ds: seq<DiffLine>, file: string, n: nat)
    requires AllOk(ds) && NoHeaderLike(ds)
    ensures Read(ChopAll(RawLines(ds)) + [""], file, n) == ChopContents(Meant(ds, file, n))
    decreases |ds|
  {
    hide LineOk, PlusNumber, LineText, Chop, ChopContents;
    var lines := ChopAll(RawLines(ds)) + [""];
    if ds == [] {
      assert lines == [""];
    } else {
      var d := ds[0];
      assert LineOk(d);
      assert lines[1..] == ChopAll(RawLines(ds[1..])) + [""];
      assert lines[0] == Chop(LineText(d));
      if d.Hunk? {
        HunkReads(d);
        ReadMeant(ds[1..], file, d.start);
      } else {
        OtherReads(d);
        ReadMeant(ds[1..], HeaderFile(d, file), if d.Plus? then n + 1 else n);
        if d.Plus? {
          ChopCons(Added(file, n, d.content), Meant(ds[1..], file, n + 1));
        }
      }
    }
  }

  function CountPlus(ds: seq<DiffLine>): nat {
    if ds == [] then 0
    else (if ds[0].Plus? && !HeaderLike(ds[0].content) then 1 else 0) + CountPlus(ds[1..])
  }

  /** In any case one entry is read per added line that is not header-like. */
  lemma {:induction false} ReadCount(ds: seq<DiffLine>, file: string, n: nat)
    requires AllOk(ds)
    ensures |Read(ChopAll(RawLines(ds)) + [""], file, n)| == CountPlus(ds)
    decreases |ds|
  {
    hide LineOk, PlusNumber, LineText;
    var lines := ChopAll(RawLines(ds)) + [""];
    if ds == [] {
      assert lines == [""];
    } else {
      var d := ds[0];
      assert LineOk(d);
      assert lines[1..] == ChopAll(RawLines(ds[1..])) + [""];
      assert lines[0] == Chop(LineText(d));
      if d.Hunk? {
        HunkReads(d);
        ReadCount(ds[1..], file, d.start);
      } else {
        OtherReads(d);
        if d.Plus? && !HeaderLike(d.content) {
          ReadCount(ds[1..], file, n + 1);
        } else {
          var l := lines[0];
          ReadCount(ds[1..], if "+++ " <= l then DropB(l[4..]) else file, n);
        }
      }
    }
  }

  lemma {:induction false} MeantCount(ds: seq<DiffLine>, file: string, n: nat)
    ensures |Meant(ds, file, n)| >= CountPlus(ds)
    ensures |Meant(ds, file, n)| == CountPlus(ds) <==> NoHeaderLike(ds)
    decreases |ds|
  {
    if ds != [] {
      var d := ds[0];
      MeantCount(ds[1..], HeaderFile(d, file),
                 if d.Hunk? then d.start else if d.Plus? then n + 1 else n);
      assert forall i :: 0 <= i < |ds[1..]| ==> ds[1..][i] == ds[i + 1];
      assert NoHeaderLike(ds) <==> (d.Plus? ==> !HeaderLike(d.content)) && NoHeaderLike(ds[1..]);
    }
  }

  lemma ConsEqual(a: Added, xs: seq<Added>, b: Added, ys: seq<Added>)
    ensures [a] + xs == [b] + ys <==> a == b && xs == ys
  {
    assert ([a] + xs)[1..] == xs && ([b] + ys)[1..] == ys;
    assert ([a] + xs)[0] == a && ([b] + ys)[0] == b;
  }

  lemma {:induction false} MeantContents(ds: seq<DiffLine>, file: string, n: nat)
    ensures ChopContents(Meant(ds, file, n)) == Meant(ds, file, n) <==>
      forall i :: 0 <= i < |ds| && ds[i].Plus? ==> Chop(ds[i].content) == ds[i].content
    decreases |ds|
  {
    hide Chop, ChopContents;
    if ds != [] {
      var d, rest := ds[0], ds[1..];
      var file', n' := HeaderFile(d, file),
                       if d.Hunk? then d.start else if d.Plus? then n + 1 else n;
      MeantContents(rest, file', n');
      var whole, tail := Meant(ds, file, n), Meant(rest, file', n');
      if d.Plus? {
        assert whole == [Added(file, n, d.content)] + tail;
        ChopCons(Added(file, n, d.content), tail);
        ConsEqual(Added(file, n, Chop(d.content)), ChopContents(tail), Added(file, n, d.content), tail);
      } else {
        assert whole == tail;
      }
      assert forall i :: 0 <= i < |rest| ==> rest[i] == ds[i + 1];
    }
  }

  /** The line neither starts with two pluses and a blank nor ends in a carriage
      return. */
  ghost predicate ReadsBack(content: string) {
    (forall t :: content != "++ " + t) && (forall t :: content != t + "\r")
  }

  lemma ReadsBackMeaning(content: string)
    ensures ReadsBack(content) <==> !HeaderLike(content) && Chop(content) == content
  {
    if HeaderLike(content) {
      assert content == "++ " + content[3..];
    }
    if content != "" && content[|content| - 1] == '\r' {
      assert content == content[..|content| - 1] + "\r";
    }
    forall t | content == t + "\r"
      ensures Chop(content) != content
    {
      assert content[|content| - 1] == '\r';
    }
  }

  ghost predicate AllReadBack(ds: seq<DiffLine>) {
    forall i :: 0 <= i < |ds| && ds[i].Plus? ==> ReadsBack(ds[i].content)
  }

  /** The reader recovers every added line of a diff, with its file, number and
      content, exactly when no added line starts with `++ ` or ends in a
      carriage return. */
  lemma ReadsDiffExactly(ds: seq<DiffLine>)
    requires AllOk(ds)
    ensures Read(Lines(DiffText(ds)), "", 0) == Meant(ds, "", 0) <==> AllReadBack(ds)
  {
    hide Read, Lines, DiffText, ReadsBack, HeaderLike, Chop;
    forall i | 0 <= i < |ds| && ds[i].Plus?
      ensures ReadsBack(ds[i].content) <==> !HeaderLike(ds[i].content) && Chop(ds[i].content) == ds[i].content
    {
      ReadsBackMeaning(ds[i].content);
    }
    DiffLines(ds);
    ReadCount(ds, "", 0);
    MeantCount(ds, "", 0);
    MeantContents(ds, "", 0);
    if NoHeaderLike(ds) {
      ReadMeant(ds, "", 0);
    }
  }

  /** An added line that starts with two pluses and a blank is taken for a file
      header. */
  lemma PlusesLost()
    ensures var ds := [NewFile("f"), Hunk("0,0", 1, " @@"), Plus("++ i")];
      AllOk(ds) && Read(Lines(DiffText(ds)), "", 0) != Meant(ds, "", 0)
  {
    hide Read, Lines, DiffText, Meant;
    var ds := [NewFile("f"), Hunk("0,0", 1, " @@"), Plus("++ i")];
    assert ds[2].Plus? && ds[2].content == "++ " + "i";
    assert !ReadsBack(ds[2].content);
    ReadsDiffExactly(ds);
  }

  /** A line of a CRLF file is not given back as it is in the file. */
  lemma CarriageReturnLost()
    ensures var ds := [NewFile("f"), Hunk("0,0", 1, " @@"), Plus("a\r")];
      AllOk(ds) && Read(Lines(DiffText(ds)), "", 0) != Meant(ds, "", 0)
  {
    hide Read, Lines, DiffText, Meant;
    var ds := [NewFile("f"), Hunk("0,0", 1, " @@"), Plus("a\r")];
    assert ds[2].Plus? && ds[2].content == "a" + "\r";
    assert !ReadsBack(ds[2].content);
    ReadsDiffExactly(ds);
  }

  // ---------------------------------------------------------------------
  // Edit scripts
  // ---------------------------------------------------------------------

  /** An edit keeps lines or replaces some by others; `oldRange` and `section`
      are the parts of the hunk header that the reader skips. The flags say
      that the no-newline marker follows the removed or the added lines. */
  datatype Edit =
    | Keep(kept: seq<string>)
    | Change(oldRange: string, section: string, removed: seq<string>, oldOpen: bool, added: seq<string>, newOpen: bool)

  /** `preamble` holds the metadata lines before the new-file header. A deletion
      is one hunk of removed lines under the null file. */
  datatype FileEdit =
    | FileEdit(path: string, preamble: seq<string>, edits: seq<Edit>)
    | FileDeletion(preamble: seq<string>, oldRange: string, section: string, removed: seq<string>, oldOpen: bool)

  function NewLines(edits: seq<Edit>): seq<string> {
    if edits == [] then []
    else (if edits[0].Keep? then edits[0].kept else edits[0].added) + NewLines(edits[1..])
  }

  function Metas(lines: seq<string>): seq<DiffLine> {
    seq(|lines|, i requires 0 <= i < |lines| => Meta(lines[i]))
  }

  const NO_NEWLINE := "\\ No newline at end of file"

  function Marker(open: bool): seq<DiffLine> {
    if open then [Meta(NO_NEWLINE)] else []
  }

  function Minuses(lines: seq<string>, open: bool): seq<DiffLine> {
    seq(|lines|, i requires 0 <= i < |lines| => Meta("-" + lines[i])) + Marker(open)
  }

  function Pluses(lines: seq<string>): seq<DiffLine> {
    seq(|lines|, i requires 0 <= i < |lines| => Plus(lines[i]))
  }

  /** The zero-context diff of one file from new line `at` on, then `rest`. */
  function HunksOf(edits: seq<Edit>, at: nat, rest: seq<DiffLine>): seq<DiffLine>
    requires at >= 1
  {
    if edits == [] then rest else
      match edits[0]
      case Keep(kept) => HunksOf(edits[1..], at + |kept|, rest)
      case Change(oldRange, section, removed, oldOpen, added, newOpen) =>
        [Hunk(oldRange, if added == [] then at - 1 else at, section)]
        + (Minuses(removed, oldOpen) + (Pluses(added) + (Marker(newOpen) + HunksOf(edits[1..], at + |added|, rest))))
  }

  function DiffOf(files: seq<FileEdit>): seq<DiffLine> {
    if files == [] then [] else
      var f, rest := files[0], DiffOf(files[1..]);
      Metas(f.preamble)
      + if f.FileEdit? then [NewFile(f.path)] + HunksOf(f.edits, 1, rest)
        else [Deleted] + ([Hunk(f.oldRange, 0, f.section)] + (Minuses(f.removed, f.oldOpen) + rest))
  }

  /** The added lines of a file, each at its position in the new file. */
  function AddedIn(path: string, edits: seq<Edit>, at: nat): seq<Added> {
    if edits == [] then [] else
      match edits[0]
      case Keep(kept) => AddedIn(path, edits[1..], at + |kept|)
      case Change(_, _, _, _, added, _) => Numbered(path, added, at) + AddedIn(path, edits[1..], at + |added|)
  }

  function Numbered(path: string, added: seq<string>, at: nat): seq<Added> {
    seq(|added|, i requires 0 <= i < |added| => Added(path, at + i, added[i]))
  }

  function AddedLines(files: seq<FileEdit>): seq<Added> {
    if files == [] then []
    else if files[0].FileDeletion? then AddedLines(files[1..])
    else AddedIn(files[0].path, files[0].edits, 1) + AddedLines(files[1..])
  }

  /** Every entry is a line of the new file, under its own number. */
  lemma {:induction false} AddedInNewFile(path: string, edits: seq<Edit>, at: nat, k: nat)
    requires k < |AddedIn(path, edits, at)|
    ensures var e := AddedIn(path, edits, at)[k];
      e.file == path && at <= e.line < at + |NewLines(edits)| && NewLines(edits)[e.line - at] == e.content
    decreases |edits|
  {
    var first := if edits[0].Keep? then edits[0].kept else edits[0].added;
    var skipped := if edits[0].Keep? then 0 else |first|;
    if k >= skipped {
      AddedInNewFile(path, edits[1..], at + |first|, k - skipped);
    }
  }

  lemma {:induction false} MeantSkips(ms: seq<DiffLine>, rest: seq<DiffLine>, file: string, n: nat)
    requires forall i :: 0 <= i < |ms| ==> ms[i].Meta?
    ensures Meant(ms + rest, file, n) == Meant(rest, file, n)
  {
    if ms == [] {
      assert ms + rest == rest;
    } else {
      assert (ms + rest)[1..] == ms[1..] + rest;
      MeantSkips(ms[1..], rest, file, n);
    }
  }

  lemma {:induction false} MeantPluses(added: seq<string>, rest: seq<DiffLine>, file: string, n: nat)
    ensures Meant(Pluses(added) + rest, file, n) == Numbered(file, added, n) + Meant(rest, file, n + |added|)
    decreases |added|
  {
    if added == [] {
      assert Pluses(added) + rest == rest;
    } else {
      assert (Pluses(added) + rest)[1..] == Pluses(added[1..]) + rest;
      MeantPluses(added[1..], rest, file, n + 1);
      assert Numbered(file, added, n) == [Added(file, n, added[0])] + Numbered(file, added[1..], n + 1);
    }
  }

  lemma MinusesAreMeta(lines: seq<string>, open: bool)
    ensures forall i :: 0 <= i < |Minuses(lines, open)| ==> Minuses(lines, open)[i].Meta?
    ensures forall i :: 0 <= i < |Marker(open)| ==> Marker(open)[i].Meta?
  {
  }

  lemma NumberedFrom(path: string, added: seq<string>, start: nat, at: nat)
    requires start == at || added == []
    ensures Numbered(path, added, start) == Numbered(path, added, at)
  {
  }

  /** The entries of a file's hunks are its added lines, whatever line number
      the reader carries in, provided those of the rest do not depend on it. */
  lemma {:induction false} MeantHunks(path: string, edits: seq<Edit>, at: nat, rest: seq<DiffLine>, n: nat, after: seq<Added>)
    requires at >= 1 && forall m: nat :: Meant(rest, path, m) == after
    ensures Meant(HunksOf(edits, at, rest), path, n) == AddedIn(path, edits, at) + after
    decreases |edits|
  {
    hide Meant, Minuses, Pluses, Marker, Numbered;
    if edits == [] {
      assert AddedIn(path, edits, at) + after == after;
    } else if edits[0].Keep? {
      MeantHunks(path, edits[1..], at + |edits[0].kept|, rest, n, after);
    } else {
      var Change(oldRange, section, removed, oldOpen, added, newOpen) := edits[0];
      var start := if added == [] then at - 1 else at;
      var tail := HunksOf(edits[1..], at + |added|, rest);
      MeantChange(path, oldRange, start, section, removed, oldOpen, added, newOpen, tail, n);
      NumberedFrom(path, added, start, at);
      MeantHunks(path, edits[1..], at + |added|, rest, start + |added|, after);
      var here, later := Numbered(path, added, at), AddedIn(path, edits[1..], at + |added|);
      assert here + (later + after) == here + later + after;
    }
  }

  lemma MeantChange(path: string, oldRange: string, start: nat, section: string, removed: seq<string>, oldOpen: bool,
                    added: seq<string>, newOpen: bool, tail: seq<DiffLine>, n: nat)
    ensures Meant([Hunk(oldRange, start, section)]
                  + (Minuses(removed, oldOpen) + (Pluses(added) + (Marker(newOpen) + tail))), path, n)
         == Numbered(path, added, start) + Meant(tail, path, start + |added|)
  {
    hide Minuses, Pluses, Marker, Numbered;
    var rest := Marker(newOpen) + tail;
    var body := Minuses(removed, oldOpen) + (Pluses(added) + rest);
    assert ([Hunk(oldRange, start, section)] + body)[1..] == body;
    MinusesAreMeta(removed, oldOpen);
    MinusesAreMeta([], newOpen);
    MeantSkips(Minuses(removed, oldOpen), Pluses(added) + rest, path, start);
    MeantPluses(added, rest, path, start);
    MeantSkips(Marker(newOpen), tail, path, start + |added|);
  }

  lemma {:induction false} MeantFiles(files: seq<FileEdit>, file: string, n: nat)
    ensures Meant(DiffOf(files), file, n) == AddedLines(files)
    decreases |files|
  {
    if files != [] {
      var f, rest := files[0], DiffOf(files[1..]);
      forall file, m: nat
        ensures Meant(rest, file, m) == AddedLines(files[1..])
      {
        MeantFiles(files[1..], file, m);
      }
      if f.FileEdit? {
        var hunks := HunksOf(f.edits, 1, rest);
        MeantSkips(Metas(f.preamble), [NewFile(f.path)] + hunks, file, n);
        assert ([NewFile(f.path)] + hunks)[1..] == hunks;
        MeantHunks(f.path, f.edits, 1, rest, n, AddedLines(files[1..]));
      } else {
        var hunk := [Hunk(f.oldRange, 0, f.section)] + (Minuses(f.removed, f.oldOpen) + rest);
        MeantSkips(Metas(f.preamble), [Deleted] + hunk, file, n);
        assert ([Deleted] + hunk)[1..] == hunk && hunk[1..] == Minuses(f.removed, f.oldOpen) + rest;
        MeantSkips(Minuses(f.removed, f.oldOpen), rest, NULL_FILE, 0);
      }
    }
  }

  /** For every edit script, reading its zero-context diff gives exactly the
      added lines at their places in the new files if and only if no added line
      starts with `++ ` or ends in a carriage return. */
  lemma ReadsEditScript(files: seq<FileEdit>)
    requires AllOk(DiffOf(files))
    ensures Read(Lines(DiffText(DiffOf(files))), "", 0) == AddedLines(files) <==> AllReadBack(DiffOf(files))
  {
    hide Read, Lines, DiffText, DiffOf, AddedLines, LineOk, AllReadBack;
    ReadsDiffExactly(DiffOf(files));
    MeantFiles(files, "", 0);
  }
}
