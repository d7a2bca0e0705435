/** Sources written as trees of pieces (comments, quoted literals, templates
    with nested interpolations), and what lexer and scanner make of them. */
module SourcePieces {
  import opened Text
  import opened SourceLexer
  import opened SourceScanner

  /** A quoted literal is closed by its quote, cut off by a newline, or runs to
      the end of the source. */
  datatype Ending = Closed | Cut | Ran

  datatype Bit =
    | Plain(c: char)
    | LineNote(body: string)
    | BlockNote(body: string, closed: bool)
    | Quoted(q: char, body: string, end: Ending)

  /** Code, at the top level or in an interpolation; only there are braces
      matched. What is not closed runs to the end of the source. */
  datatype Region =
    | Done
    | Then(bit: Bit, rest: Region)
    | Backtick(body: Body, closed: bool, rest: Region)
    | Braces(inner: Region, closed: bool, rest: Region)

  /** The inside of a template. A backslash protects one character, or none at
      the end of the source. */
  datatype Body =
    | Empty
    | Letter(c: char, tail: Body)
    | Escape(guarded: string, tail: Body)
    | Hole(code: Region, closed: bool, tail: Body)

  // ---------------------------------------------------------------------
  // Text
  // ---------------------------------------------------------------------

  function Mark(present: bool, c: char): string {
    if present then [c] else ""
  }

  function Enclosed(open: string, inner: string, close: string): (r: string)
    ensures |r| == |open| + |inner| + |close|
  {
    open + inner + close
  }

  function EndText(q: char, end: Ending): string {
    match end
    case Closed => [q]
    case Cut => "\n"
    case Ran => ""
  }

  function BitText(b: Bit): string {
    match b
    case Plain(c) => [c]
    case LineNote(body) => "//" + body
    case BlockNote(body, closed) => "/*" + body + if closed then "*/" else ""
    case Quoted(q, body, end) => [q] + body + EndText(q, end)
  }

  function RegionText(r: Region): string {
    match r
    case Done => ""
    case Then(bit, rest) => BitText(bit) + RegionText(rest)
    case Backtick(body, closed, rest) => Enclosed("`", BodyText(body), Mark(closed, '`')) + RegionText(rest)
    case Braces(inner, closed, rest) => Enclosed("{", RegionText(inner), Mark(closed, '}')) + RegionText(rest)
  }

  function BodyText(b: Body): string {
    match b
    case Empty => ""
    case Letter(c, tail) => [c] + BodyText(tail)
    case Escape(guarded, tail) => ("\\" + guarded) + BodyText(tail)
    case Hole(code, closed, tail) => Enclosed("${", RegionText(code), Mark(closed, '}')) + BodyText(tail)
  }

  // ---------------------------------------------------------------------
  // Well-formed pieces, given the text that follows
  // ---------------------------------------------------------------------

  predicate Opens(s: string, c: char) {
    s != "" && s[0] == c
  }

  /** No closing delimiter of a block comment anywhere in s. */
  predicate NoClose(s: string) {
    forall k :: 0 <= k < |s| - 1 ==> !(s[k] == '*' && s[k + 1] == '/')
  }

  /** The content of a literal: backslashes come with the character they
      protect, and the quote and newlines appear only so protected. One that
      runs to the end of the source may end in a lone backslash. */
  predicate LiteralBody(s: string, q: char, ran: bool) {
    s == ""
    || (s[0] == '\\' && |s| >= 2 && LiteralBody(s[2..], q, ran))
    || (s[0] != '\\' && s[0] != q && s[0] != '\n' && LiteralBody(s[1..], q, ran))
    || (ran && s == "\\")
  }

  predicate BitOk(b: Bit, nested: bool, after: string) {
    match b
    case Plain(c) =>
      && c != '\'' && c != '"' && c != '`' && (nested ==> c != '{' && c != '}')
      && (c == '/' ==> !Opens(after, '/') && !Opens(after, '*'))
    case LineNote(body) => '\n' !in body && (after == "" || Opens(after, '\n'))
    case BlockNote(body, closed) => if closed then NoClose(body + "*") else NoClose(body) && after == ""
    case Quoted(q, body, end) =>
      (q == '\'' || q == '"') && LiteralBody(body, q, end.Ran?) && (end.Ran? ==> after == "")
  }

  predicate RegionOk(r: Region, nested: bool, after: string) {
    match r
    case Done => true
    case Then(bit, rest) => BitOk(bit, nested, RegionText(rest) + after) && RegionOk(rest, nested, after)
    case Backtick(body, closed, rest) =>
      && BodyOk(body, Mark(closed, '`') + (RegionText(rest) + after))
      && (closed || RegionText(rest) + after == "") && RegionOk(rest, nested, after)
    case Braces(inner, closed, rest) =>
      && nested && RegionOk(inner, true, Mark(closed, '}') + (RegionText(rest) + after))
      && (closed || RegionText(rest) + after == "") && RegionOk(rest, nested, after)
  }

  predicate BodyOk(b: Body, after: string) {
    match b
    case Empty => true
    case Letter(c, tail) =>
      c != '`' && c != '\\' && (c == '$' ==> !Opens(BodyText(tail) + after, '{')) && BodyOk(tail, after)
    case Escape(guarded, tail) =>
      (|guarded| == 1 || (guarded == "" && BodyText(tail) + after == "")) && BodyOk(tail, after)
    case Hole(code, closed, tail) =>
      && RegionOk(code, true, Mark(closed, '}') + (BodyText(tail) + after))
      && (closed || BodyText(tail) + after == "") && BodyOk(tail, after)
  }

  // ---------------------------------------------------------------------
  // Classes read off the pieces that start at a position
  // ---------------------------------------------------------------------

  function BitClasses(b: Bit, at: nat): (r: seq<Class>)
    ensures |r| == |BitText(b)|
  {
    match b
    case Plain(_) => [Code]
    case LineNote(_) => Run(LineComment, |BitText(b)|)
    case BlockNote(_, _) => Run(BlockComment, |BitText(b)|)
    case Quoted(q, body, end) =>
      [Code] + Run(Literal(at + 1, at + 1 + |body|), |body|) + Run(Code, |EndText(q, end)|)
  }

  /** Delimiters are code. */
  function EnclosedClasses(n: nat, inner: seq<Class>, m: nat): (r: seq<Class>)
    ensures |r| == n + |inner| + m
  {
    Run(Code, n) + inner + Run(Code, m)
  }

  function RegionClasses(r: Region, at: nat): (cs: seq<Class>)
    ensures |cs| == |RegionText(r)|
  {
    match r
    case Done => []
    case Then(bit, rest) => BitClasses(bit, at) + RegionClasses(rest, at + |BitText(bit)|)
    case Backtick(body, closed, rest) =>
      var head := EnclosedClasses(1, BodyClasses(body, at + 1), |Mark(closed, '`')|);
      head + RegionClasses(rest, at + |head|)
    case Braces(inner, closed, rest) =>
      var head := EnclosedClasses(1, RegionClasses(inner, at + 1), |Mark(closed, '}')|);
      head + RegionClasses(rest, at + |head|)
  }

  function BodyClasses(b: Body, at: nat): (cs: seq<Class>)
    ensures |cs| == |BodyText(b)|
  {
    match b
    case Empty => []
    case Letter(_, tail) => [TemplateText] + BodyClasses(tail, at + 1)
    case Escape(guarded, tail) => Run(TemplateEscape, 1 + |guarded|) + BodyClasses(tail, at + 1 + |guarded|)
    case Hole(code, closed, tail) =>
      var head := EnclosedClasses(2, RegionClasses(code, at + 2), |Mark(closed, '}')|);
      head + BodyClasses(tail, at + |head|)
  }

  // ---------------------------------------------------------------------
  // One lexeme
  // ---------------------------------------------------------------------

  /** The text t stands at position i and `after` is the rest of the source. */
  predicate Stands(src: string, i: nat, t: string, after: string) {
    i <= |src| && src[i..] == t + after
  }

  lemma StandsSplit(src: string, i: nat, a: string, b: string, after: string)
    requires Stands(src, i, a + b, after)
    ensures Stands(src, i, a, b + after) && Stands(src, i + |a|, b, after)
  {
    assert a + b + after == a + (b + after);
    assert src[i + |a|..] == src[i..][|a|..];
  }

  lemma StandsAt(src: string, i: nat, t: string, after: string)
    requires Stands(src, i, t, after)
    ensures i + |t| <= |src| && |src| == i + |t| + |after|
    ensures forall k :: 0 <= k < |t| ==> src[i + k] == t[k]
    ensures forall k :: 0 <= k < |after| ==> src[i + |t| + k] == after[k]
  {
    var s := src[i..];
    assert forall k :: i <= k < |src| ==> src[k] == s[k - i];
    assert forall k :: 0 <= k < |t| ==> s[k] == t[k];
    assert forall k :: |t| <= k < |s| ==> s[k] == after[k - |t|];
  }

  lemma {:induction false} LineEndAt(src: string, i: nat, j: nat)
    requires i <= j <= |src| && (forall k :: i <= k < j ==> src[k] != '\n') && (j < |src| ==> src[j] == '\n')
    ensures LineEnd(src, i) == j
  {
    hide LineEnd;
  }

  lemma {:induction false} BlockEndAt(src: string, j: nat, e: nat)
    requires j <= e <= |src| && forall k :: j <= k < e ==> !(src[k] == '*' && At(src, k + 1, '/'))
    requires e == |src| || (src[e] == '*' && At(src, e + 1, '/'))
    ensures BlockEnd(src, j) == if e == |src| then e else e + 2
    decreases e - j
  {
    if j < e {
      BlockEndAt(src, j + 1, e);
    }
  }

  lemma {:induction false} LiteralEndAt(src: string, j: nat, q: char, body: string, ran: bool)
    requires q != '\\' && LiteralBody(body, q, ran)
    requires j + |body| <= |src| && src[j..j + |body|] == body && (ran ==> j + |body| == |src|)
    requires j + |body| < |src| ==> src[j + |body|] == q || src[j + |body|] == '\n'
    ensures LiteralEnd(src, j, q) == j + |body|
    decreases |body|
  {
    if body != "" {
      assert src[j] == body[0];
      if body[0] != '\\' {
        assert src[j + 1..j + |body|] == body[1..];
        LiteralEndAt(src, j + 1, q, body[1..], ran);
      } else if |body| >= 2 && LiteralBody(body[2..], q, ran) {
        assert src[j + 2..j + |body|] == body[2..];
        LiteralEndAt(src, j + 2, q, body[2..], ran);
      }
    }
  }

  lemma NoteReads(src: string, i: nat, b: Bit, nested: bool, after: string)
    requires (b.LineNote? || b.BlockNote?) && BitOk(b, nested, after) && Stands(src, i, BitText(b), after)
    ensures i < |src| && Lexeme(src, i) == Lexed(BitClasses(b, i), i + |BitText(b)|)
  {
    hide LineEnd, BlockEnd, Stands;
    var t := BitText(b);
    StandsAt(src, i, t, after);
    var n := i + 2 + |b.body|;
    assert forall k :: 0 <= k < |b.body| ==> src[i + 2 + k] == b.body[k] by {
      assert forall k :: 0 <= k < |b.body| ==> t[2 + k] == b.body[k];
    }
    assert src[i] == t[0] && src[i + 1] == t[1];
    if b.LineNote? {
      assert after != "" ==> src[n] == after[0];
      assert forall k :: i + 2 <= k < n ==> src[k] == b.body[k - (i + 2)];
      LineEndAt(src, i + 2, n);
    } else {
      if b.closed {
        assert t[2 + |b.body|] == '*' && t[3 + |b.body|] == '/';
        assert src[n] == '*' && src[n + 1] == '/';
      }
      NoCloseBefore(src, i + 2, b.body, b.closed);
      BlockEndAt(src, i + 2, n);
    }
  }

  lemma NoCloseBefore(src: string, j: nat, body: string, closed: bool)
    requires j + |body| <= |src| && forall k :: 0 <= k < |body| ==> src[j + k] == body[k]
    requires if closed then NoClose(body + "*") && At(src, j + |body|, '*') else NoClose(body) && j + |body| == |src|
    ensures forall k :: j <= k < j + |body| ==> !(src[k] == '*' && At(src, k + 1, '/'))
  {
    var t := if closed then body + "*" else body;
    forall k | j <= k < j + |body|
      ensures !(src[k] == '*' && At(src, k + 1, '/'))
    {
      assert src[k] == t[k - j];
      if k + 1 < |src| {
        assert src[k + 1] == t[k - j + 1];
      }
    }
  }

  lemma QuotedReads(src: string, i: nat, b: Bit, nested: bool, after: string)
    requires b.Quoted? && BitOk(b, nested, after) && Stands(src, i, BitText(b), after)
    ensures i < |src| && Lexeme(src, i) == Lexed(BitClasses(b, i), i + |BitText(b)|)
  {
    hide LiteralEnd, Stands, LiteralBody;
    var t := BitText(b);
    StandsAt(src, i, t, after);
    var e := i + 1 + |b.body|;
    assert forall k :: 0 <= k < |b.body| ==> t[1 + k] == b.body[k];
    assert src[i] == t[0] == b.q;
    assert src[i + 1..e] == b.body;
    if !b.end.Ran? {
      assert src[e] == t[1 + |b.body|] == EndText(b.q, b.end)[0];
    }
    LiteralEndAt(src, i + 1, b.q, b.body, b.end.Ran?);
    assert Lexeme(src, i).classes == BitClasses(b, i);
  }

  /** A piece is read as one lexeme, with the classes it stands for. */
  lemma BitReads(src: string, i: nat, b: Bit, nested: bool, after: string)
    requires BitOk(b, nested, after) && Stands(src, i, BitText(b), after)
    ensures i < |src| && src[i] != '`' && (nested ==> src[i] != '{' && src[i] != '}')
    ensures Lexeme(src, i) == Lexed(BitClasses(b, i), i + |BitText(b)|)
  {
    hide LiteralBody, NoClose;
    StandsAt(src, i, BitText(b), after);
    match b
    case Plain(c) =>
      assert src[i] == c;
      assert i + 1 < |src| ==> src[i + 1] == after[0];
    case Quoted(_, _, _) => QuotedReads(src, i, b, nested, after);
    case _ => NoteReads(src, i, b, nested, after);
  }

  // ---------------------------------------------------------------------
  // Regions and templates
  // ---------------------------------------------------------------------

  lemma BracedStep(src: string, i: nat)
    requires i < |src| && src[i] != '}'
    ensures src[i] == '`' ==> var t := LexTemplate(src, i + 1); BracedOn(src, i, [Code] + t.classes, t.next)
    ensures src[i] == '{' ==> var t := LexBraced(src, i + 1); BracedOn(src, i, [Code] + t.classes, t.next)
    ensures src[i] != '`' && src[i] != '{' ==> var r := Lexeme(src, i); BracedOn(src, i, r.classes, r.next)
  {
  }

  /** The lexer reads `head` up to `next` and goes on. */
  ghost predicate BracedOn(src: string, i: nat, head: seq<Class>, next: nat) {
    i <= |src| && next <= |src|
    && LexBraced(src, i) == Lexed(head + LexBraced(src, next).classes, LexBraced(src, next).next)
  }

  lemma EnclosedGlue(n: nat, open: seq<Class>, inner: seq<Class>, m: nat)
    requires open == Run(Code, n)
    ensures open + (inner + Run(Code, m)) == EnclosedClasses(n, inner, m)
  {
  }

  lemma Glue(a: seq<Class>, b: seq<Class>, c: seq<Class>)
    ensures a + (b + c) == (a + b) + c
  {
  }

  ghost predicate ReadsBraced(src: string, i: nat, r: Region, closed: bool) {
    i <= |src| && LexBraced(src, i)
    == Lexed(RegionClasses(r, i) + Run(Code, |Mark(closed, '}')|), i + |RegionText(r)| + |Mark(closed, '}')|)
  }

  ghost predicate ReadsTemplate(src: string, i: nat, b: Body, closed: bool) {
    i <= |src| && LexTemplate(src, i)
    == Lexed(BodyClasses(b, i) + Run(Code, |Mark(closed, '`')|), i + |BodyText(b)| + |Mark(closed, '`')|)
  }

  ghost predicate BracedStands(src: string, i: nat, r: Region, closed: bool, after: string) {
    && RegionOk(r, true, Mark(closed, '}') + after) && (closed || after == "")
    && Stands(src, i, RegionText(r), Mark(closed, '}') + after)
  }

  ghost predicate TemplateStands(src: string, i: nat, b: Body, closed: bool, after: string) {
    && BodyOk(b, Mark(closed, '`') + after) && (closed || after == "")
    && Stands(src, i, BodyText(b), Mark(closed, '`') + after)
  }

  /** An interpolation's code is read up to its closing brace. */
  lemma {:induction false} BracedReads(src: string, i: nat, r: Region, closed: bool, after: string)
    requires BracedStands(src, i, r, closed, after)
    ensures ReadsBraced(src, i, r, closed)
    decreases r
  {
    hide BracedStands, ReadsBraced, ReadsTemplate, TemplateStands, BracedOn, RegionText, BodyText, RegionClasses, BodyClasses,
         BitText, BitClasses, EnclosedClasses;
    match r
    case Done => BracedDone(src, i, closed, after);
    case Then(bit, rest) =>
      BracedThen(src, i, bit, rest, closed, after);
      BracedReads(src, i + |BitText(bit)|, rest, closed, after);
      ThenUnfold(bit, rest, i);
      BracedMore(src, i, r, BitClasses(bit, i), rest, closed);
    case Backtick(body, closed2, rest) =>
      BracedTick(src, i, body, closed2, rest, closed, after);
      TemplateReads(src, i + 1, body, closed2, RegionText(rest) + (Mark(closed, '}') + after));
      BracedReads(src, i + 1 + |BodyText(body)| + |Mark(closed2, '`')|, rest, closed, after);
      TickUnfold(body, closed2, rest, i);
      TickOn(src, i, body, closed2);
      BracedMore(src, i, r, EnclosedClasses(1, BodyClasses(body, i + 1), |Mark(closed2, '`')|), rest, closed);
    case Braces(inner, closed2, rest) =>
      BracedBraces(src, i, inner, closed2, rest, closed, after);
      BracedReads(src, i + 1, inner, closed2, RegionText(rest) + (Mark(closed, '}') + after));
      BracedReads(src, i + 1 + |RegionText(inner)| + |Mark(closed2, '}')|, rest, closed, after);
      BracesText(inner, closed2, rest);
      BracesClasses(inner, closed2, rest, i);
      BracesOn(src, i, inner, closed2);
      BracedMore(src, i, r, EnclosedClasses(1, RegionClasses(inner, i + 1), |Mark(closed2, '}')|), rest, closed);
  }

  lemma {:induction false} ThenUnfold(bit: Bit, rest: Region, at: nat)
    ensures RegionText(Then(bit, rest)) == BitText(bit) + RegionText(rest)
    ensures RegionClasses(Then(bit, rest), at) == BitClasses(bit, at) + RegionClasses(rest, at + |BitText(bit)|)
  {
    hide BitText, BitClasses, BodyText, BodyClasses;
  }

  lemma {:induction false} TickUnfold(body: Body, closed: bool, rest: Region, at: nat)
    ensures RegionText(Backtick(body, closed, rest)) == Enclosed("`", BodyText(body), Mark(closed, '`')) + RegionText(rest)
    ensures var head := EnclosedClasses(1, BodyClasses(body, at + 1), |Mark(closed, '`')|);
      RegionClasses(Backtick(body, closed, rest), at) == head + RegionClasses(rest, at + |head|)
  {
    TickText(body, closed, rest);
    hide BodyText, RegionText, BodyClasses, BitText, BitClasses, Enclosed, EnclosedClasses, Run, Mark;
  }

  lemma {:induction false} TickText(body: Body, closed: bool, rest: Region)
    ensures RegionText(Backtick(body, closed, rest)) == Enclosed("`", BodyText(body), Mark(closed, '`')) + RegionText(rest)
  {
    hide BodyText, BitText, Enclosed, Mark;
  }

  lemma {:induction false} TickOk(body: Body, closed: bool, rest: Region, nested: bool, after: string)
    requires RegionOk(Backtick(body, closed, rest), nested, after)
    ensures BodyOk(body, Mark(closed, '`') + (RegionText(rest) + after)) && RegionOk(rest, nested, after)
    ensures closed || RegionText(rest) + after == ""
  {
    hide RegionText, BodyOk, BitOk;
  }

  lemma {:induction false} ThenOk(bit: Bit, rest: Region, nested: bool, after: string)
    requires RegionOk(Then(bit, rest), nested, after)
    ensures BitOk(bit, nested, RegionText(rest) + after) && RegionOk(rest, nested, after)
  {
    hide RegionText, BodyOk, BitOk;
  }

  lemma BracedDone(src: string, i: nat, closed: bool, after: string)
    requires BracedStands(src, i, Done, closed, after)
    ensures ReadsBraced(src, i, Done, closed)
  {
    hide LexBraced, Stands;
    StandsAt(src, i, "", Mark(closed, '}') + after);
    assert closed ==> src[i] == (Mark(closed, '}') + after)[0];
    BracedEnds(src, i, closed);
    assert [] + Run(Code, |Mark(closed, '}')|) == Run(Code, |Mark(closed, '}')|);
  }

  lemma BracedThen(src: string, i: nat, bit: Bit, rest: Region, closed: bool, after: string)
    requires BracedStands(src, i, Then(bit, rest), closed, after)
    ensures BracedStands(src, i + |BitText(bit)|, rest, closed, after)
    ensures BracedOn(src, i, BitClasses(bit, i), i + |BitText(bit)|)
  {
    hide Stands, BitOk, BitClasses, Lexeme, BitText, LexBraced, RegionText, RegionOk;
    var mark := Mark(closed, '}') + after;
    ThenUnfold(bit, rest, i);
    ThenOk(bit, rest, true, mark);
    StandsSplit(src, i, BitText(bit), RegionText(rest), mark);
    BitReads(src, i, bit, true, RegionText(rest) + mark);
    BracedStep(src, i);
  }

  /** A first piece and the rest. */
  lemma {:induction false} BracedMore(src: string, i: nat, r: Region, head: seq<Class>, rest: Region, closed: bool)
    requires BracedOn(src, i, head, i + |head|) && ReadsBraced(src, i + |head|, rest, closed)
    requires RegionClasses(r, i) == head + RegionClasses(rest, i + |head|) && |RegionText(r)| == |head| + |RegionText(rest)|
    ensures ReadsBraced(src, i, r, closed)
  {
    hide LexBraced, RegionClasses, RegionText;
    Glue(head, RegionClasses(rest, i + |head|), Run(Code, |Mark(closed, '}')|));
  }

  lemma BracedTick(src: string, i: nat, body: Body, closed2: bool, rest: Region, closed: bool, after: string)
    requires BracedStands(src, i, Backtick(body, closed2, rest), closed, after)
    ensures At(src, i, '`') && TemplateStands(src, i + 1, body, closed2, RegionText(rest) + (Mark(closed, '}') + after))
    ensures BracedStands(src, i + 1 + |BodyText(body)| + |Mark(closed2, '`')|, rest, closed, after)
  {
    hide Stands, BodyText, BodyOk, RegionText, RegionOk, Enclosed;
    var mark := Mark(closed, '}') + after;
    var open := Enclosed("`", BodyText(body), Mark(closed2, '`'));
    TickUnfold(body, closed2, rest, i);
    TickOk(body, closed2, rest, true, mark);
    StandsSplit(src, i, open, RegionText(rest), mark);
    OpenedReads(src, i, '`', BodyText(body), closed2, '`', RegionText(rest) + mark);
  }

  lemma TickOn(src: string, i: nat, body: Body, closed: bool)
    requires At(src, i, '`') && ReadsTemplate(src, i + 1, body, closed)
    ensures var head := EnclosedClasses(1, BodyClasses(body, i + 1), |Mark(closed, '`')|); BracedOn(src, i, head, i + |head|)
  {
    hide LexBraced, LexTemplate, BodyText, BodyClasses, EnclosedClasses;
    BracedStep(src, i);
    EnclosedGlue(1, [Code], BodyClasses(body, i + 1), |Mark(closed, '`')|);
  }

  lemma {:induction false} BracesText(inner: Region, closed: bool, rest: Region)
    ensures RegionText(Braces(inner, closed, rest)) == Enclosed("{", RegionText(inner), Mark(closed, '}')) + RegionText(rest)
  {
    hide Enclosed;
  }

  lemma {:induction false} BracesClasses(inner: Region, closed: bool, rest: Region, at: nat)
    ensures var head := EnclosedClasses(1, RegionClasses(inner, at + 1), |Mark(closed, '}')|);
      RegionClasses(Braces(inner, closed, rest), at) == head + RegionClasses(rest, at + |head|)
  {
    hide EnclosedClasses, RegionText, BodyText, BodyClasses, BitText, BitClasses, Run, Mark;
  }

  lemma {:induction false} BracesOk(inner: Region, closed: bool, rest: Region, after: string)
    requires RegionOk(Braces(inner, closed, rest), true, after)
    ensures RegionOk(inner, true, Mark(closed, '}') + (RegionText(rest) + after)) && RegionOk(rest, true, after)
    ensures closed || RegionText(rest) + after == ""
  {
    hide RegionText, BitOk, BodyOk;
  }

  lemma BracedBraces(src: string, i: nat, inner: Region, closed2: bool, rest: Region, closed: bool, after: string)
    requires BracedStands(src, i, Braces(inner, closed2, rest), closed, after)
    ensures At(src, i, '{') && BracedStands(src, i + 1, inner, closed2, RegionText(rest) + (Mark(closed, '}') + after))
    ensures BracedStands(src, i + 1 + |RegionText(inner)| + |Mark(closed2, '}')|, rest, closed, after)
  {
    hide Stands, RegionText, RegionOk;
    var mark := Mark(closed, '}') + after;
    var open := Enclosed("{", RegionText(inner), Mark(closed2, '}'));
    BracesText(inner, closed2, rest);
    BracesOk(inner, closed2, rest, mark);
    hide Enclosed;
    StandsSplit(src, i, open, RegionText(rest), mark);
    OpenedReads(src, i, '{', RegionText(inner), closed2, '}', RegionText(rest) + mark);
  }

  lemma BracesOn(src: string, i: nat, inner: Region, closed: bool)
    requires At(src, i, '{') && ReadsBraced(src, i + 1, inner, closed)
    ensures var head := EnclosedClasses(1, RegionClasses(inner, i + 1), |Mark(closed, '}')|); BracedOn(src, i, head, i + |head|)
  {
    hide LexBraced, RegionText, RegionClasses, EnclosedClasses;
    BracedStep(src, i);
    EnclosedGlue(1, [Code], RegionClasses(inner, i + 1), |Mark(closed, '}')|);
  }

  lemma BracedEnds(src: string, i: nat, closed: bool)
    requires if closed then At(src, i, '}') else i == |src|
    ensures LexBraced(src, i) == Lexed(Run(Code, |Mark(closed, '}')|), i + |Mark(closed, '}')|)
  {
  }

  lemma OpenedReads(src: string, i: nat, opener: char, inner: string, closed: bool, closer: char, after: string)
    requires Stands(src, i, Enclosed([opener], inner, Mark(closed, closer)), after)
    ensures At(src, i, opener) && Stands(src, i + 1, inner, Mark(closed, closer) + after)
  {
    hide Stands;
    var m := Mark(closed, closer);
    assert [opener] + inner + m == [opener] + (inner + m);
    StandsSplit(src, i, [opener], inner + m, after);
    StandsAt(src, i, [opener], inner + m + after);
    StandsSplit(src, i + 1, inner, m, after);
  }

  lemma TemplateStep(src: string, i: nat)
    requires i < |src| && src[i] != '`'
    ensures src[i] == '\\' ==> var n := if i + 1 < |src| then 2 else 1;
      LexTemplate(src, i) == Lexed(Run(TemplateEscape, n) + LexTemplate(src, i + n).classes, LexTemplate(src, i + n).next)
    ensures src[i] == '$' && At(src, i + 1, '{') ==> var t := LexBraced(src, i + 2);
      LexTemplate(src, i)
      == Lexed([Code, Code] + t.classes + LexTemplate(src, t.next).classes, LexTemplate(src, t.next).next)
    ensures src[i] != '\\' && !(src[i] == '$' && At(src, i + 1, '{')) ==>
      LexTemplate(src, i) == Lexed([TemplateText] + LexTemplate(src, i + 1).classes, LexTemplate(src, i + 1).next)
  {
  }

  lemma TemplateEnds(src: string, i: nat, closed: bool)
    requires if closed then At(src, i, '`') else i == |src|
    ensures LexTemplate(src, i) == Lexed(Run(Code, |Mark(closed, '`')|), i + |Mark(closed, '`')|)
  {
  }

  /** A template is read up to its closing backtick. */
  lemma {:induction false} TemplateReads(src: string, i: nat, b: Body, closed: bool, after: string)
    requires TemplateStands(src, i, b, closed, after)
    ensures ReadsTemplate(src, i, b, closed)
    decreases b
  {
    hide BracedStands, ReadsBraced, ReadsTemplate, TemplateStands, Reads, BodyText, BodyClasses, RegionText, RegionClasses,
         EnclosedClasses;
    match b
    case Empty => TemplateDone(src, i, closed, after);
    case Letter(c, tail) =>
      TemplateLetter(src, i, c, tail, closed, after);
      TemplateReads(src, i + 1, tail, closed, after);
      LetterUnfold(c, tail, i);
      TemplateMore(src, i, b, [TemplateText], tail, closed);
    case Escape(guarded, tail) =>
      var n := 1 + |guarded|;
      TemplateEscaped(src, i, guarded, tail, closed, after);
      TemplateReads(src, i + n, tail, closed, after);
      EscapeUnfold(guarded, tail, i);
      TemplateMore(src, i, b, Run(TemplateEscape, n), tail, closed);
    case Hole(code, closed2, tail) =>
      var head := EnclosedClasses(2, RegionClasses(code, i + 2), |Mark(closed2, '}')|);
      TemplateHole(src, i, code, closed2, tail, closed, after);
      BracedReads(src, i + 2, code, closed2, BodyText(tail) + (Mark(closed, '`') + after));
      TemplateReads(src, i + |head|, tail, closed, after);
      HoleUnfold(code, closed2, tail, i);
      HoleOn(src, i, code, closed2);
      TemplateMore(src, i, b, head, tail, closed);
  }

  lemma {:induction false} LetterUnfold(c: char, tail: Body, at: nat)
    ensures BodyText(Letter(c, tail)) == [c] + BodyText(tail)
    ensures BodyClasses(Letter(c, tail), at) == [TemplateText] + BodyClasses(tail, at + 1)
  {
    hide RegionText, RegionClasses;
  }

  lemma {:induction false} EscapeUnfold(guarded: string, tail: Body, at: nat)
    ensures BodyText(Escape(guarded, tail)) == ("\\" + guarded) + BodyText(tail)
    ensures BodyClasses(Escape(guarded, tail), at) == Run(TemplateEscape, 1 + |guarded|) + BodyClasses(tail, at + 1 + |guarded|)
  {
    hide RegionText, RegionClasses;
  }

  lemma {:induction false} HoleUnfold(code: Region, closed: bool, tail: Body, at: nat)
    ensures BodyText(Hole(code, closed, tail)) == Enclosed("${", RegionText(code), Mark(closed, '}')) + BodyText(tail)
    ensures var head := EnclosedClasses(2, RegionClasses(code, at + 2), |Mark(closed, '}')|);
      BodyClasses(Hole(code, closed, tail), at) == head + BodyClasses(tail, at + |head|)
  {
    hide RegionText, RegionClasses, Enclosed, EnclosedClasses;
  }

  lemma {:induction false} HoleOk(code: Region, closed: bool, tail: Body, after: string)
    requires BodyOk(Hole(code, closed, tail), after)
    ensures RegionOk(code, true, Mark(closed, '}') + (BodyText(tail) + after)) && BodyOk(tail, after)
    ensures closed || BodyText(tail) + after == ""
  {
    hide BodyText, RegionOk;
  }

  lemma TemplateDone(src: string, i: nat, closed: bool, after: string)
    requires TemplateStands(src, i, Empty, closed, after)
    ensures ReadsTemplate(src, i, Empty, closed)
  {
    hide LexTemplate, Stands;
    StandsAt(src, i, "", Mark(closed, '`') + after);
    assert closed ==> src[i] == (Mark(closed, '`') + after)[0];
    TemplateEnds(src, i, closed);
    assert [] + Run(Code, |Mark(closed, '`')|) == Run(Code, |Mark(closed, '`')|);
  }

  /** The lexer reads `head` in n characters and goes on. */
  ghost predicate Reads(src: string, i: nat, n: nat, head: seq<Class>) {
    i + n <= |src| && LexTemplate(src, i) == Lexed(head + LexTemplate(src, i + n).classes, LexTemplate(src, i + n).next)
  }

  lemma {:induction false} TemplateMore(src: string, i: nat, b: Body, head: seq<Class>, tail: Body, closed: bool)
    requires Reads(src, i, |head|, head) && ReadsTemplate(src, i + |head|, tail, closed)
    requires BodyClasses(b, i) == head + BodyClasses(tail, i + |head|) && |BodyText(b)| == |head| + |BodyText(tail)|
    ensures ReadsTemplate(src, i, b, closed)
  {
    hide LexTemplate, BodyClasses, BodyText;
    Glue(head, BodyClasses(tail, i + |head|), Run(Code, |Mark(closed, '`')|));
  }

  lemma TemplateLetter(src: string, i: nat, c: char, tail: Body, closed: bool, after: string)
    requires TemplateStands(src, i, Letter(c, tail), closed, after)
    ensures TemplateStands(src, i + 1, tail, closed, after) && Reads(src, i, 1, [TemplateText])
  {
    hide Stands, LexTemplate;
    var mark := Mark(closed, '`') + after;
    StandsSplit(src, i, [c], BodyText(tail), mark);
    StandsAt(src, i, [c], BodyText(tail) + mark);
    assert src[i] == c;
    assert i + 1 < |src| ==> src[i + 1] == (BodyText(tail) + mark)[0];
    TemplateStep(src, i);
  }

  lemma TemplateEscaped(src: string, i: nat, guarded: string, tail: Body, closed: bool, after: string)
    requires TemplateStands(src, i, Escape(guarded, tail), closed, after)
    ensures TemplateStands(src, i + 1 + |guarded|, tail, closed, after)
    ensures Reads(src, i, 1 + |guarded|, Run(TemplateEscape, 1 + |guarded|))
  {
    hide Stands, LexTemplate;
    var mark := Mark(closed, '`') + after;
    var open := "\\" + guarded;
    StandsSplit(src, i, open, BodyText(tail), mark);
    StandsAt(src, i, open, BodyText(tail) + mark);
    assert src[i] == open[0];
    TemplateStep(src, i);
  }

  lemma TemplateHole(src: string, i: nat, code: Region, closed2: bool, tail: Body, closed: bool, after: string)
    requires TemplateStands(src, i, Hole(code, closed2, tail), closed, after)
    ensures At(src, i, '$') && At(src, i + 1, '{')
    ensures BracedStands(src, i + 2, code, closed2, BodyText(tail) + (Mark(closed, '`') + after))
    ensures TemplateStands(src, i + 2 + |RegionText(code)| + |Mark(closed2, '}')|, tail, closed, after)
  {
    hide Stands, RegionText, RegionOk, BodyText, BodyOk, Mark, At;
    var mark := Mark(closed, '`') + after;
    HoleOk(code, closed2, tail, mark);
    HoleStands(src, i, code, closed2, tail, mark);
  }

  lemma HoleStands(src: string, i: nat, code: Region, closed: bool, tail: Body, mark: string)
    requires Stands(src, i, BodyText(Hole(code, closed, tail)), mark)
    ensures At(src, i, '$') && At(src, i + 1, '{')
    ensures Stands(src, i + 2, RegionText(code), Mark(closed, '}') + (BodyText(tail) + mark))
    ensures Stands(src, i + 2 + |RegionText(code)| + |Mark(closed, '}')|, BodyText(tail), mark)
  {
    hide Stands, RegionText, BodyText, Mark, At, Enclosed;
    HoleUnfold(code, closed, tail, i);
    StandsSplit(src, i, Enclosed("${", RegionText(code), Mark(closed, '}')), BodyText(tail), mark);
    HoleReads(src, i, code, closed, BodyText(tail) + mark);
  }

  lemma HoleOn(src: string, i: nat, code: Region, closed: bool)
    requires At(src, i, '$') && At(src, i + 1, '{') && ReadsBraced(src, i + 2, code, closed)
    ensures var head := EnclosedClasses(2, RegionClasses(code, i + 2), |Mark(closed, '}')|); Reads(src, i, |head|, head)
  {
    hide LexTemplate, LexBraced, RegionClasses, RegionText, EnclosedClasses;
    TemplateStep(src, i);
    EnclosedGlue(2, [Code, Code], RegionClasses(code, i + 2), |Mark(closed, '}')|);
  }

  lemma HoleReads(src: string, i: nat, code: Region, closed: bool, after: string)
    requires Stands(src, i, Enclosed("${", RegionText(code), Mark(closed, '}')), after)
    ensures At(src, i, '$') && At(src, i + 1, '{') && Stands(src, i + 2, RegionText(code), Mark(closed, '}') + after)
  {
    hide Stands, RegionText;
    var inner, m := RegionText(code), Mark(closed, '}');
    assert "${" + inner + m == "${" + (inner + m);
    StandsSplit(src, i, "${", inner + m, after);
    StandsAt(src, i, "${", inner + m + after);
    StandsSplit(src, i + 2, inner, m, after);
  }

  lemma CodeStep(src: string, i: nat)
    requires i < |src|
    ensures src[i] == '`' ==> var t := LexTemplate(src, i + 1);
      LexCode(src, i) == [Code] + t.classes + LexCode(src, t.next)
    ensures src[i] != '`' ==> var r := Lexeme(src, i); LexCode(src, i) == r.classes + LexCode(src, r.next)
  {
  }

  lemma {:induction false} CodeReads(src: string, i: nat, r: Region)
    requires RegionOk(r, false, "") && Stands(src, i, RegionText(r), "")
    ensures LexCode(src, i) == RegionClasses(r, i)
    decreases r
  {
    hide Stands, BitOk, BitClasses, BitText, Lexeme, LexCode, LexTemplate, RegionText, RegionClasses, BodyText, BodyClasses,
         BodyOk, Enclosed, EnclosedClasses;
    match r
    case Done => CodeEnds(src, i);
    case Then(bit, rest) =>
      ThenUnfold(bit, rest, i);
      ThenOk(bit, rest, false, "");
      StandsSplit(src, i, BitText(bit), RegionText(rest), "");
      BitReads(src, i, bit, false, RegionText(rest) + "");
      CodeStep(src, i);
      CodeReads(src, i + |BitText(bit)|, rest);
    case Backtick(body, closed, rest) =>
      var open, tail := Enclosed("`", BodyText(body), Mark(closed, '`')), RegionText(rest) + "";
      TickUnfold(body, closed, rest, i);
      TickOk(body, closed, rest, false, "");
      StandsSplit(src, i, open, RegionText(rest), "");
      OpenedReads(src, i, '`', BodyText(body), closed, '`', tail);
      TemplateReads(src, i + 1, body, closed, tail);
      CodeReads(src, i + |open|, rest);
      TickCode(src, i, body, closed);
    case Braces(_, _, _) =>
  }

  lemma TickCode(src: string, i: nat, body: Body, closed: bool)
    requires At(src, i, '`') && ReadsTemplate(src, i + 1, body, closed)
    ensures var head := EnclosedClasses(1, BodyClasses(body, i + 1), |Mark(closed, '`')|);
      i + |head| <= |src| && LexCode(src, i) == head + LexCode(src, i + |head|)
  {
    hide LexCode, LexTemplate, BodyText, BodyClasses, EnclosedClasses;
    CodeStep(src, i);
    EnclosedGlue(1, [Code], BodyClasses(body, i + 1), |Mark(closed, '`')|);
  }

  lemma {:induction false} CodeEnds(src: string, i: nat)
    requires Stands(src, i, RegionText(Done), "")
    ensures LexCode(src, i) == RegionClasses(Done, i)
  {
  }

  /** The reference lexer gives every well-formed tree the classes read off its
      pieces. */
  lemma LexPieces(r: Region)
    requires RegionOk(r, false, "")
    ensures Lex(RegionText(r)) == RegionClasses(r, 0)
  {
    assert RegionText(r)[0..] == RegionText(r) + "";
    CodeReads(RegionText(r), 0, r);
  }

  // ---------------------------------------------------------------------
  // Every source is such a tree
  // ---------------------------------------------------------------------

  /** Offset of the first closing delimiter of a block comment, or |s|. */
  function CloseAt(s: string): (k: nat)
    ensures k <= |s| && NoClose(s[..k])
    ensures k < |s| ==> k + 1 < |s| && s[k] == '*' && s[k + 1] == '/' && NoClose(s[..k] + "*")
  {
    if s == "" || (Opens(s, '*') && Opens(s[1..], '/')) then 0 else
      var k := 1 + CloseAt(s[1..]);
      assert s[..k] == [s[0]] + s[1..][..k - 1];
      assert k < |s| ==> s[..k] + "*" == [s[0]] + (s[1..][..k - 1] + "*");
      k
  }

  /** Offset of the quote or newline that ends a literal, or |s|. */
  function QuoteAt(s: string, q: char): (k: nat)
    requires q != '\\'
    ensures k <= |s| && LiteralBody(s[..k], q, k == |s|)
    ensures k < |s| ==> s[k] == q || s[k] == '\n'
  {
    if s == "" || s[0] == q || s[0] == '\n' then 0
    else if s == "\\" then 1
    else
      var n := if s[0] == '\\' then 2 else 1;
      var k := n + QuoteAt(s[n..], q);
      assert s[..k][n..] == s[n..][..k - n];
      k
  }

  function FirstNote(s: string, nested: bool): (b: Bit)
    requires Opens(s, '/') && (Opens(s[1..], '/') || Opens(s[1..], '*'))
    ensures BitText(b) <= s && BitOk(b, nested, s[|BitText(b)|..])
  {
    var t := s[2..];
    if s[1] == '/' then LineNote(t[..IndexOf(t, '\n')]) else FirstBlock(s, nested)
  }

  function FirstBlock(s: string, nested: bool): (b: Bit)
    requires |s| >= 2 && s[0] == '/' && s[1] == '*'
    ensures BitText(b) <= s && BitOk(b, nested, s[|BitText(b)|..])
  {
    var k := CloseAt(s[2..]);
    BlockFits(s, s[2..], k, nested);
    hide BitText, BitOk;
    if k < |s| - 2 then BlockNote(s[2..][..k], true) else BlockNote(s[2..], false)
  }

  lemma BlockFits(s: string, t: string, k: nat, nested: bool)
    requires |s| >= 2 && s[0] == '/' && s[1] == '*' && s[2..] == t && k <= |t|
    requires if k < |t| then k + 1 < |t| && t[k] == '*' && t[k + 1] == '/' && NoClose(t[..k] + "*") else NoClose(t[..k])
    ensures var b := if k < |t| then BlockNote(t[..k], true) else BlockNote(t, false);
      BitText(b) <= s && BitOk(b, nested, s[|BitText(b)|..])
  {
    hide NoClose;
    assert s == "/*" + t;
    if k < |t| {
      assert t == t[..k] + "*/" + t[k + 2..];
      assert s == ("/*" + t[..k] + "*/") + t[k + 2..];
    } else {
      assert t[..k] == t;
      assert "/*" + t + "" == s;
    }
  }

  function FirstQuoted(s: string, nested: bool): (b: Bit)
    requires Opens(s, '\'') || Opens(s, '"')
    ensures BitText(b) <= s && BitOk(b, nested, s[|BitText(b)|..])
  {
    var t := s[1..];
    var k := QuoteAt(t, s[0]);
    assert s == [s[0]] + t;
    if k == |t| then
      assert t[..k] == t;
      Quoted(s[0], t, Ran)
    else
      assert s == [s[0]] + t[..k] + [t[k]] + t[k + 1..];
      Quoted(s[0], t[..k], if t[k] == s[0] then Closed else Cut)
  }

  function FirstBit(s: string, nested: bool): (b: Bit)
    requires s != "" && s[0] != '`' && (nested ==> s[0] != '{' && s[0] != '}')
    ensures BitText(b) <= s && BitOk(b, nested, s[|BitText(b)|..]) && BitText(b) != ""
  {
    if s[0] == '/' && (Opens(s[1..], '/') || Opens(s[1..], '*')) then FirstNote(s, nested)
    else if s[0] == '\'' || s[0] == '"' then FirstQuoted(s, nested)
    else
      assert s == [s[0]] + s[1..];
      Plain(s[0])
  }

  /** A tree read from the front of s, whether it was closed, and the rest. */
  datatype Cutting<T> = Cutting(tree: T, closed: bool, rest: string)

  ghost predicate CutBraced(s: string, c: Cutting<Region>) {
    && s == RegionText(c.tree) + (Mark(c.closed, '}') + c.rest)
    && RegionOk(c.tree, true, Mark(c.closed, '}') + c.rest) && (c.closed || c.rest == "")
  }

  ghost predicate CutTemplate(s: string, c: Cutting<Body>) {
    && s == BodyText(c.tree) + (Mark(c.closed, '`') + c.rest)
    && BodyOk(c.tree, Mark(c.closed, '`') + c.rest) && (c.closed || c.rest == "")
  }

  function ReadBraced(s: string): (c: Cutting<Region>)
    ensures CutBraced(s, c) && |c.rest| <= |s|
    decreases |s|
  {
    hide BitOk, BitText;
    if s == "" then CutNothing(s); Cutting(Done, false, "")
    else if s[0] == '}' then CutNothing(s); Cutting(Done, true, s[1..])
    else if s[0] == '`' then
      var inner := ReadTemplate(s[1..]);
      var c := ReadBraced(inner.rest);
      CutTick(s, inner, c);
      Cutting(Backtick(inner.tree, inner.closed, c.tree), c.closed, c.rest)
    else if s[0] == '{' then
      var inner := ReadBraced(s[1..]);
      var c := ReadBraced(inner.rest);
      CutBraces(s, inner, c);
      Cutting(Braces(inner.tree, inner.closed, c.tree), c.closed, c.rest)
    else
      var b := FirstBit(s, true);
      var c := ReadBraced(s[|BitText(b)|..]);
      CutBit(s, b, c);
      Cutting(Then(b, c.tree), c.closed, c.rest)
  }

  function ReadTemplate(s: string): (c: Cutting<Body>)
    ensures CutTemplate(s, c) && |c.rest| <= |s|
    decreases |s|
  {
    if s == "" then CutText(s); Cutting(Empty, false, "")
    else if s[0] == '`' then CutText(s); Cutting(Empty, true, s[1..])
    else if s[0] == '\\' then
      var n := if |s| == 1 then 1 else 2;
      var c := ReadTemplate(s[n..]);
      CutEscape(s, n, c);
      Cutting(Escape(s[1..n], c.tree), c.closed, c.rest)
    else if s[0] == '$' && Opens(s[1..], '{') then
      var inner := ReadBraced(s[2..]);
      var c := ReadTemplate(inner.rest);
      CutHole(s, inner, c);
      Cutting(Hole(inner.tree, inner.closed, c.tree), c.closed, c.rest)
    else
      var c := ReadTemplate(s[1..]);
      CutLetter(s, c);
      Cutting(Letter(s[0], c.tree), c.closed, c.rest)
  }

  lemma CutNothing(s: string)
    ensures s == "" ==> CutBraced(s, Cutting(Done, false, ""))
    ensures Opens(s, '}') ==> CutBraced(s, Cutting(Done, true, s[1..]))
  {
  }

  lemma CutText(s: string)
    ensures s == "" ==> CutTemplate(s, Cutting(Empty, false, ""))
    ensures Opens(s, '`') ==> CutTemplate(s, Cutting(Empty, true, s[1..]))
  {
  }

  lemma EnclosedFront(s: string, open: string, inner: string, close: string, rest: string, mark: string)
    requires open <= s && s[|open|..] == inner + (close + (rest + mark))
    ensures s == Enclosed(open, inner, close) + rest + mark
  {
    assert s == open + s[|open|..];
  }

  lemma {:induction false} CutTick(s: string, inner: Cutting<Body>, c: Cutting<Region>)
    requires Opens(s, '`') && CutTemplate(s[1..], inner) && CutBraced(inner.rest, c)
    ensures CutBraced(s, Cutting(Backtick(inner.tree, inner.closed, c.tree), c.closed, c.rest))
  {
    var r := Backtick(inner.tree, inner.closed, c.tree);
    var mark := Mark(c.closed, '}') + c.rest;
    TickUnfold(inner.tree, inner.closed, c.tree, 0);
    hide BodyText, BodyOk, RegionText;
    EnclosedFront(s, "`", BodyText(inner.tree), Mark(inner.closed, '`'), RegionText(c.tree), mark);
  }

  lemma {:induction false} CutBraces(s: string, inner: Cutting<Region>, c: Cutting<Region>)
    requires Opens(s, '{') && CutBraced(s[1..], inner) && CutBraced(inner.rest, c)
    ensures CutBraced(s, Cutting(Braces(inner.tree, inner.closed, c.tree), c.closed, c.rest))
  {
    var r := Braces(inner.tree, inner.closed, c.tree);
    var mark := Mark(c.closed, '}') + c.rest;
    BracesText(inner.tree, inner.closed, c.tree);
    hide RegionText;
    assert RegionOk(r, true, mark);
    hide RegionOk;
    EnclosedFront(s, "{", RegionText(inner.tree), Mark(inner.closed, '}'), RegionText(c.tree), mark);
  }

  lemma {:induction false} CutBit(s: string, b: Bit, c: Cutting<Region>)
    requires BitText(b) <= s && BitOk(b, true, s[|BitText(b)|..]) && CutBraced(s[|BitText(b)|..], c)
    ensures CutBraced(s, Cutting(Then(b, c.tree), c.closed, c.rest))
  {
    hide BitOk, BitText;
    var mark := Mark(c.closed, '}') + c.rest;
    assert s == BitText(b) + s[|BitText(b)|..];
    assert BitText(b) + RegionText(c.tree) + mark == BitText(b) + (RegionText(c.tree) + mark);
  }

  lemma {:induction false} CutEscape(s: string, n: nat, c: Cutting<Body>)
    requires Opens(s, '\\') && n == (if |s| == 1 then 1 else 2) && CutTemplate(s[n..], c)
    ensures CutTemplate(s, Cutting(Escape(s[1..n], c.tree), c.closed, c.rest))
  {
    var mark := Mark(c.closed, '`') + c.rest;
    assert s == "\\" + s[1..n] + s[n..];
    assert "\\" + s[1..n] + BodyText(c.tree) + mark == "\\" + s[1..n] + (BodyText(c.tree) + mark);
  }

  lemma {:induction false} CutLetter(s: string, c: Cutting<Body>)
    requires s != "" && s[0] != '`' && s[0] != '\\' && !(s[0] == '$' && Opens(s[1..], '{')) && CutTemplate(s[1..], c)
    ensures CutTemplate(s, Cutting(Letter(s[0], c.tree), c.closed, c.rest))
  {
    var mark := Mark(c.closed, '`') + c.rest;
    assert s == [s[0]] + s[1..];
    assert [s[0]] + BodyText(c.tree) + mark == [s[0]] + (BodyText(c.tree) + mark);
  }

  lemma {:induction false} CutHole(s: string, inner: Cutting<Region>, c: Cutting<Body>)
    requires Opens(s, '$') && Opens(s[1..], '{') && CutBraced(s[2..], inner) && CutTemplate(inner.rest, c)
    ensures CutTemplate(s, Cutting(Hole(inner.tree, inner.closed, c.tree), c.closed, c.rest))
  {
    var b := Hole(inner.tree, inner.closed, c.tree);
    var mark := Mark(c.closed, '`') + c.rest;
    HoleUnfold(inner.tree, inner.closed, c.tree, 0);
    hide RegionText, RegionOk, BodyText;
    assert s[..2] == "${";
    EnclosedFront(s, "${", RegionText(inner.tree), Mark(inner.closed, '}'), BodyText(c.tree), mark);
  }

  /** The tree of a source. */
  function TreeOf(s: string): (r: Region)
    ensures RegionText(r) == s && RegionOk(r, false, "")
    decreases |s|
  {
    hide BitOk, BitText;
    if s == "" then Done
    else if s[0] == '`' then
      var inner := ReadTemplate(s[1..]);
      var rest := TreeOf(inner.rest);
      TopTick(s, inner, rest);
      Backtick(inner.tree, inner.closed, rest)
    else
      var b := FirstBit(s, false);
      var rest := TreeOf(s[|BitText(b)|..]);
      assert RegionText(rest) + "" == RegionText(rest);
      Then(b, rest)
  }

  lemma {:induction false} TopTick(s: string, inner: Cutting<Body>, rest: Region)
    requires Opens(s, '`') && CutTemplate(s[1..], inner) && RegionText(rest) == inner.rest && RegionOk(rest, false, "")
    ensures var r := Backtick(inner.tree, inner.closed, rest); RegionText(r) == s && RegionOk(r, false, "")
  {
    TickUnfold(inner.tree, inner.closed, rest, 0);
    hide BodyText, BodyOk, RegionText;
    assert RegionText(rest) + "" == inner.rest;
    EnclosedFront(s, "`", BodyText(inner.tree), Mark(inner.closed, '`'), inner.rest, "");
    assert s + "" == s;
  }

  /** Every source is a well-formed tree, and lexed as its pieces say. */
  lemma EverySource(src: string)
    ensures RegionOk(TreeOf(src), false, "") && RegionText(TreeOf(src)) == src
    ensures Lex(src) == RegionClasses(TreeOf(src), 0)
  {
    LexPieces(TreeOf(src));
  }
}
