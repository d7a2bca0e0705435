/** The pushdown scanner of the config-consumption gate: one pass with an
    explicit stack that blanks comments, literals and template text in place. */
module SourceScanner {
  import opened Text
  import opened SourceLexer

  datatype Frame = Template | Interp(depth: nat)

  predicate InCode(stack: seq<Frame>) {
    stack == [] || stack[|stack| - 1].Interp?
  }

  /** Template and interpolation frames alternate, a template at the bottom,
      and an open interpolation has at least one brace to close. */
  ghost predicate Alternates(stack: seq<Frame>) {
    forall k :: 0 <= k < |stack| ==>
      if k % 2 == 0 then stack[k].Template? else stack[k].Interp? && stack[k].depth >= 1
  }

  // ---------------------------------------------------------------------
  // The masks as functions of the reference classes
  // ---------------------------------------------------------------------

  function Content(src: string, from: nat, to: nat): string {
    if from <= to <= |src| then src[from..to] else ""
  }

  function Unmasked(c: char): char {
    if c == '\n' then '\n' else ' '
  }

  function NoCommentChar(c: char, cl: Class): char {
    if cl.LineComment? || cl.BlockComment? then ' ' else c
  }

  function MaskedChar(src: string, keep: Option<string>, c: char, cl: Class): char {
    match cl
    case Code => c
    case LineComment => ' '
    case BlockComment => ' '
    case Literal(from, to) => if Some(Content(src, from, to)) == keep then c else Unmasked(c)
    case TemplateText => Unmasked(c)
    case TemplateEscape => ' '
  }

  function NoComment(src: string): (r: string)
    ensures |r| == |src|
  {
    seq(|src|, k requires 0 <= k < |src| => NoCommentChar(src[k], Lex(src)[k]))
  }

  function Masked(src: string, keep: Option<string>): (r: string)
    ensures |r| == |src|
  {
    seq(|src|, k requires 0 <= k < |src| => MaskedChar(src, keep, src[k], Lex(src)[k]))
  }

  // ---------------------------------------------------------------------
  // One turn of the loop, and the stack as a continuation
  // ---------------------------------------------------------------------

  datatype Move = Move(classes: seq<Class>, stack: seq<Frame>, next: nat)

  function Top(stack: seq<Frame>): Frame
    requires stack != []
  {
    stack[|stack| - 1]
  }

  function Pop(stack: seq<Frame>): seq<Frame>
    requires stack != []
  {
    stack[..|stack| - 1]
  }

  function AdvanceCode(src: string, stack: seq<Frame>, i: nat): (m: Move)
    requires i < |src| && InCode(stack)
    ensures Covers(src, i, Lexed(m.classes, m.next)) && i < m.next
  {
    if src[i] == '`' then Move([Code], stack + [Template], i + 1)
    else if stack != [] && src[i] == '{' then
      Move([Code], Pop(stack) + [Interp(Top(stack).depth + 1)], i + 1)
    else if stack != [] && src[i] == '}' then
      Move([Code], if Top(stack).depth <= 1 then Pop(stack) else Pop(stack) + [Interp(Top(stack).depth - 1)], i + 1)
    else
      var r := Lexeme(src, i);
      Move(r.classes, stack, r.next)
  }

  function AdvanceTemplate(src: string, stack: seq<Frame>, i: nat): (m: Move)
    requires i < |src| && !InCode(stack)
    ensures Covers(src, i, Lexed(m.classes, m.next)) && i < m.next
  {
    if src[i] == '\\' then
      var next := if i + 1 < |src| then i + 2 else i + 1;
      Move(Run(TemplateEscape, next - i), stack, next)
    else if src[i] == '`' then Move([Code], Pop(stack), i + 1)
    else if src[i] == '$' && At(src, i + 1, '{') then Move([Code, Code], stack + [Interp(1)], i + 2)
    else Move([TemplateText], stack, i + 1)
  }

  function Advance(src: string, stack: seq<Frame>, i: nat): (m: Move)
    requires i < |src|
    ensures Covers(src, i, Lexed(m.classes, m.next)) && i < m.next
  {
    if InCode(stack) then AdvanceCode(src, stack, i) else AdvanceTemplate(src, stack, i)
  }

  /** The classes that the reference lexer gives to the rest of the source when
      the open constructs are those on the stack. */
  function Resume(src: string, stack: seq<Frame>, i: nat): (r: seq<Class>)
    requires i <= |src|
    ensures |r| == |src| - i
    decreases |stack|, if stack == [] || Top(stack).Template? then 0 else Top(stack).depth
  {
    if stack == [] then LexCode(src, i)
    else if Top(stack).Template? then
      var r := LexTemplate(src, i);
      r.classes + Resume(src, Pop(stack), r.next)
    else if Top(stack).depth == 0 then Resume(src, Pop(stack), i)
    else
      var r := LexBraced(src, i);
      r.classes + Resume(src, Pop(stack) + [Interp(Top(stack).depth - 1)], r.next)
  }

  lemma Unwind(src: string, stack: seq<Frame>, f: Frame, i: nat)
    requires i <= |src|
    ensures Resume(src, stack + [f], i) ==
      match f
      case Template => LexTemplate(src, i).classes + Resume(src, stack, LexTemplate(src, i).next)
      case Interp(d) =>
        if d == 0 then Resume(src, stack, i)
        else LexBraced(src, i).classes + Resume(src, stack + [Interp(d - 1)], LexBraced(src, i).next)
  {
    assert Pop(stack + [f]) == stack;
  }

  /** Every interpolation reduces to closing its braces one after the other. */
  lemma AdvanceCodeResumes(src: string, stack: seq<Frame>, i: nat)
    requires i < |src| && Alternates(stack) && InCode(stack)
    ensures var m := AdvanceCode(src, stack, i); Resume(src, stack, i) == m.classes + Resume(src, m.stack, m.next)
  {
    hide Lexeme, Resume, LexTemplate, LexCode;
    if stack == [] {
      TopLevelResumes(src, i);
    } else {
      var rest, d := Pop(stack), Top(stack).depth;
      assert stack == rest + [Interp(d)];
      InterpResumes(src, rest, d, i);
    }
  }

  lemma CodeUnfolds(src: string, i: nat)
    requires i < |src|
    ensures src[i] == '`' ==>
      var t := LexTemplate(src, i + 1);
      LexCode(src, i) == [Code] + t.classes + LexCode(src, t.next)
    ensures src[i] != '`' ==> var r := Lexeme(src, i); LexCode(src, i) == r.classes + LexCode(src, r.next)
  {
  }

  lemma TopLevelResumes(src: string, i: nat)
    requires i < |src|
    ensures var m := AdvanceCode(src, [], i); Resume(src, [], i) == m.classes + Resume(src, m.stack, m.next)
  {
    hide Lexeme, Resume, LexTemplate, LexCode;
    var m := AdvanceCode(src, [], i);
    CodeUnfolds(src, i);
    AtTopLevel(src, i);
    if src[i] == '`' {
      var t := LexTemplate(src, i + 1);
      Unwind(src, [], Template, i + 1);
      AtTopLevel(src, t.next);
      assert [] + [Template] == m.stack;
      assert [Code] + t.classes + LexCode(src, t.next) == [Code] + (t.classes + LexCode(src, t.next));
    } else {
      AtTopLevel(src, m.next);
    }
  }

  lemma AtTopLevel(src: string, i: nat)
    requires i <= |src|
    ensures Resume(src, [], i) == LexCode(src, i)
  {
  }

  lemma Regroup(a: seq<Class>, b: seq<Class>, c: seq<Class>, d: seq<Class>)
    ensures (a + b + c) + d == a + (b + (c + d))
  {
  }

  /** A construct nested in braces: read it, then the rest up to the brace. */
  lemma NestedInBraces(src: string, rest: seq<Frame>, d: nat, i: nat, head: seq<Class>, inner: Lexed)
    requires i <= |src| && d >= 1 && inner.next <= |src|
    requires LexBraced(src, i) == Before(head + inner.classes, LexBraced(src, inner.next))
    ensures Resume(src, rest + [Interp(d)], i) == head + (inner.classes + Resume(src, rest + [Interp(d)], inner.next))
  {
    hide Resume, LexBraced;
    Unwind(src, rest, Interp(d), i);
    Unwind(src, rest, Interp(d), inner.next);
    var b := LexBraced(src, inner.next);
    Regroup(head, inner.classes, b.classes, Resume(src, rest + [Interp(d - 1)], b.next));
  }

  lemma InterpResumes(src: string, rest: seq<Frame>, d: nat, i: nat)
    requires i < |src| && d >= 1
    ensures var m := AdvanceCode(src, rest + [Interp(d)], i);
      Resume(src, rest + [Interp(d)], i) == m.classes + Resume(src, m.stack, m.next)
  {
    hide Lexeme, Resume, LexTemplate, LexBraced;
    var stack := rest + [Interp(d)];
    assert Pop(stack) == rest;
    BracedUnfolds(src, i);
    if src[i] == '`' {
      NestedInBraces(src, rest, d, i, [Code], LexTemplate(src, i + 1));
      Unwind(src, stack, Template, i + 1);
    } else if src[i] == '{' {
      NestedInBraces(src, rest, d, i, [Code], LexBraced(src, i + 1));
      Unwind(src, rest, Interp(d + 1), i + 1);
    } else if src[i] == '}' {
      Unwind(src, rest, Interp(d), i);
      Unwind(src, rest, Interp(0), i + 1);
    } else {
      NestedInBraces(src, rest, d, i, [], Lexeme(src, i));
    }
  }

  lemma BracedUnfolds(src: string, i: nat)
    requires i < |src|
    ensures src[i] == '}' ==> LexBraced(src, i) == Lexed([Code], i + 1)
    ensures src[i] == '{' ==>
      var inner := LexBraced(src, i + 1);
      LexBraced(src, i) == Before([Code] + inner.classes, LexBraced(src, inner.next))
    ensures src[i] == '`' ==>
      var inner := LexTemplate(src, i + 1);
      LexBraced(src, i) == Before([Code] + inner.classes, LexBraced(src, inner.next))
    ensures src[i] !in {'{', '}', '`'} ==>
      var r := Lexeme(src, i);
      LexBraced(src, i) == Before([] + r.classes, LexBraced(src, r.next))
  {
    assert [] + Lexeme(src, i).classes == Lexeme(src, i).classes;
  }

  /** The same for template text. */
  lemma NestedInTemplate(src: string, rest: seq<Frame>, i: nat, head: seq<Class>, inner: Lexed)
    requires i <= |src| && inner.next <= |src|
    requires LexTemplate(src, i) == Before(head + inner.classes, LexTemplate(src, inner.next))
    ensures Resume(src, rest + [Template], i) == head + (inner.classes + Resume(src, rest + [Template], inner.next))
  {
    hide Resume, LexTemplate;
    Unwind(src, rest, Template, i);
    Unwind(src, rest, Template, inner.next);
    var b := LexTemplate(src, inner.next);
    Regroup(head, inner.classes, b.classes, Resume(src, rest, b.next));
  }

  lemma TemplateUnfolds(src: string, i: nat)
    requires i < |src|
    ensures src[i] == '`' ==> LexTemplate(src, i) == Lexed([Code], i + 1)
    ensures src[i] == '$' && At(src, i + 1, '{') ==>
      var inner := LexBraced(src, i + 2);
      LexTemplate(src, i) == Before([Code, Code] + inner.classes, LexTemplate(src, inner.next))
    ensures src[i] != '`' && !(src[i] == '$' && At(src, i + 1, '{')) ==>
      var m := AdvanceTemplate(src, [Template], i);
      LexTemplate(src, i) == Before([] + m.classes, LexTemplate(src, m.next))
  {
    var m := AdvanceTemplate(src, [Template], i);
    assert [] + m.classes == m.classes;
  }

  lemma AdvanceTemplateResumes(src: string, rest: seq<Frame>, i: nat)
    requires i < |src|
    ensures var m := AdvanceTemplate(src, rest + [Template], i);
      Resume(src, rest + [Template], i) == m.classes + Resume(src, m.stack, m.next)
  {
    hide LexBraced, LexTemplate, Resume;
    var stack := rest + [Template];
    assert Pop(stack) == rest;
    TemplateUnfolds(src, i);
    if src[i] == '`' {
      Unwind(src, rest, Template, i);
    } else if src[i] == '$' && At(src, i + 1, '{') {
      var inner := LexBraced(src, i + 2);
      NestedInTemplate(src, rest, i, [Code, Code], inner);
      Unwind(src, stack, Interp(1), i + 2);
      Unwind(src, stack, Interp(0), inner.next);
    } else {
      var m := AdvanceTemplate(src, [Template], i);
      NestedInTemplate(src, rest, i, [], Lexed(m.classes, m.next));
    }
  }

  /** The refinement step: the stack machine produces the reference classes. */
  lemma AdvanceResumes(src: string, stack: seq<Frame>, i: nat)
    requires i < |src| && Alternates(stack)
    ensures var m := Advance(src, stack, i); Resume(src, stack, i) == m.classes + Resume(src, m.stack, m.next)
  {
    hide Resume, AdvanceCode, AdvanceTemplate;
    if InCode(stack) {
      AdvanceCodeResumes(src, stack, i);
    } else {
      assert stack == Pop(stack) + [Template];
      AdvanceTemplateResumes(src, Pop(stack), i);
    }
  }

  lemma AdvanceAlternates(src: string, stack: seq<Frame>, i: nat)
    requires i < |src| && Alternates(stack)
    ensures Alternates(Advance(src, stack, i).stack)
  {
    hide Lexeme;
  }

  // ---------------------------------------------------------------------
  // The scanner
  // ---------------------------------------------------------------------

  /** The first |done| positions carry their masks, the rest is still source. */
  ghost predicate Painted(src: string, keep: Option<string>, done: seq<Class>, nc: string, mk: string) {
    && |nc| == |mk| == |src| && |done| <= |src|
    && (forall k :: 0 <= k < |done| ==>
          nc[k] == NoCommentChar(src[k], done[k]) && mk[k] == MaskedChar(src, keep, src[k], done[k]))
    && (forall k :: |done| <= k < |src| ==> nc[k] == src[k] && mk[k] == src[k])
  }

  /** The masks of `classes` are painted from i on and nothing else changes. */
  ghost predicate Paints(src: string, keep: Option<string>, i: nat, classes: seq<Class>,
                         nc0: string, mk0: string, nc: string, mk: string)
  {
    && |nc0| == |mk0| == |nc| == |mk| == |src| && i + |classes| <= |src|
    && (forall k :: 0 <= k < |src| && !(i <= k < i + |classes|) ==> nc[k] == nc0[k] && mk[k] == mk0[k])
    && (forall k :: i <= k < i + |classes| ==>
          && nc[k] == NoCommentChar(src[k], classes[k - i])
          && mk[k] == MaskedChar(src, keep, src[k], classes[k - i]))
  }

  lemma PaintMore(src: string, keep: Option<string>, done: seq<Class>, classes: seq<Class>,
                  nc0: string, mk0: string, nc: string, mk: string)
    requires Painted(src, keep, done, nc0, mk0)
    requires Paints(src, keep, |done|, classes, nc0, mk0, nc, mk)
    ensures Painted(src, keep, done + classes, nc, mk)
  {
    hide NoCommentChar, MaskedChar;
  }

  method BlankLine(src: string, nc: array<char>, mk: array<char>, i: nat) returns (j: nat)
    requires nc != mk && nc.Length == mk.Length == |src| && i <= |src|
    modifies nc, mk
    ensures j == LineEnd(src, i)
    ensures forall k :: 0 <= k < |src| ==> nc[k] == if i <= k < j then ' ' else old(nc[k])
    ensures forall k :: 0 <= k < |src| ==> mk[k] == if i <= k < j then ' ' else old(mk[k])
  {
    j := i;
    while j < |src| && src[j] != '\n'
      invariant i <= j <= |src| && LineEnd(src, i) == LineEnd(src, j)
      invariant forall k :: 0 <= k < |src| ==> nc[k] == if i <= k < j then ' ' else old(nc[k])
      invariant forall k :: 0 <= k < |src| ==> mk[k] == if i <= k < j then ' ' else old(mk[k])
    {
      nc[j], mk[j] := ' ', ' ';
      j := j + 1;
    }
  }

  /** Blanks a block comment; the returned position may lie one past the end. */
  method BlankBlock(src: string, nc: array<char>, mk: array<char>, i: nat) returns (next: nat)
    requires nc != mk && nc.Length == mk.Length == |src| && i + 2 <= |src|
    modifies nc, mk
    ensures BlockEnd(src, i + 2) == if next < |src| then next else |src|
    ensures forall k :: 0 <= k < |src| ==> nc[k] == if i <= k < next then ' ' else old(nc[k])
    ensures forall k :: 0 <= k < |src| ==> mk[k] == if i <= k < next then ' ' else old(mk[k])
  {
    var j := i + 2;
    while j < |src| - 1 && !(src[j] == '*' && src[j + 1] == '/')
      invariant i + 2 <= j <= |src| && BlockEnd(src, i + 2) == BlockEnd(src, j)
      invariant forall k :: 0 <= k < |src| ==> nc[k] == if i + 2 <= k < j then ' ' else old(nc[k])
      invariant forall k :: 0 <= k < |src| ==> mk[k] == if i + 2 <= k < j then ' ' else old(mk[k])
    {
      nc[j], mk[j] := ' ', ' ';
      j := j + 1;
    }
    next := j + 2;
    var end := if next < |src| then next else |src|;
    for m := i to end
      invariant forall k :: 0 <= k < |src| ==> nc[k] == if i <= k < m || i + 2 <= k < j then ' ' else old(nc[k])
      invariant forall k :: 0 <= k < |src| ==> mk[k] == if i <= k < m || i + 2 <= k < j then ' ' else old(mk[k])
    {
      nc[m], mk[m] := ' ', ' ';
    }
  }

  method FindLiteralEnd(src: string, i: nat, q: char) returns (j: nat)
    requires i <= |src|
    ensures LiteralEnd(src, i, q) == if j < |src| then j else |src|
  {
    j := i;
    while j < |src|
      invariant LiteralEnd(src, i, q) == if j < |src| then LiteralEnd(src, j, q) else |src|
      decreases |src| - j
    {
      if src[j] == '\\' {
        j := j + 2;
        continue;
      }
      if src[j] == q || src[j] == '\n' {
        break;
      }
      j := j + 1;
    }
  }

  method MaskRun(mk: array<char>, a: nat, b: nat)
    requires a <= b <= mk.Length
    modifies mk
    ensures forall k :: 0 <= k < mk.Length ==> mk[k] == if a <= k < b then Unmasked(old(mk[k])) else old(mk[k])
  {
    for k := a to b
      invariant forall m :: 0 <= m < mk.Length ==> mk[m] == if a <= m < k then Unmasked(old(mk[m])) else old(mk[m])
    {
      if mk[k] != '\n' {
        mk[k] := ' ';
      }
    }
  }

  method ScanLiteral(src: string, keep: Option<string>, mk: array<char>, i: nat) returns (next: nat)
    requires mk.Length == |src| && i < |src| && IsQuote(src[i])
    requires forall k :: i <= k < |src| ==> mk[k] == src[k]
    modifies mk
    ensures Lexeme(src, i).next == next
    ensures Paints(src, keep, i, Lexeme(src, i).classes, src, old(mk[..]), src, mk[..])
  {
    hide LiteralEnd;
    var j := FindLiteralEnd(src, i + 1, src[i]);
    var end := if j < |src| then j else |src|;
    if Some(src[i + 1..end]) != keep {
      MaskRun(mk, i + 1, end);
    }
    next := if j + 1 < |src| then j + 1 else |src|;
    LiteralLexeme(src, i);
    assert Content(src, i + 1, end) == src[i + 1..end];
  }

  lemma LiteralLexeme(src: string, i: nat)
    requires i < |src| && IsQuote(src[i])
    ensures var e := LiteralEnd(src, i + 1, src[i]); var r := Lexeme(src, i);
      && r.next == (if e < |src| then e + 1 else e)
      && forall k :: 0 <= k < |r.classes| ==> r.classes[k] == if 1 <= k < e - i then Literal(i + 1, e) else Code
  {
    hide LiteralEnd;
  }

  /** A comment, literal or plain character met in code position. */
  method ScanLexeme(src: string, keep: Option<string>, nc: array<char>, mk: array<char>, i: nat) returns (next: nat)
    requires nc != mk && nc.Length == mk.Length == |src| && i < |src|
    requires forall k :: i <= k < |src| ==> nc[k] == src[k] && mk[k] == src[k]
    modifies nc, mk
    ensures Lexeme(src, i).next == if next < |src| then next else |src|
    ensures Paints(src, keep, i, Lexeme(src, i).classes, old(nc[..]), old(mk[..]), nc[..], mk[..])
  {
    hide LineEnd, BlockEnd, LiteralEnd;
    if IsQuote(src[i]) {
      next := ScanLiteral(src, keep, mk, i);
      LiteralLexeme(src, i);
    } else if src[i] == '/' && i + 1 < |src| && (src[i + 1] == '/' || src[i + 1] == '*') {
      next := ScanComment(src, keep, nc, mk, i);
    } else {
      next := i + 1;
    }
  }

  method ScanComment(src: string, keep: Option<string>, nc: array<char>, mk: array<char>, i: nat) returns (next: nat)
    requires nc != mk && nc.Length == mk.Length == |src| && i + 1 < |src|
    requires src[i] == '/' && (src[i + 1] == '/' || src[i + 1] == '*')
    modifies nc, mk
    ensures Lexeme(src, i).next == if next < |src| then next else |src|
    ensures Paints(src, keep, i, Lexeme(src, i).classes, old(nc[..]), old(mk[..]), nc[..], mk[..])
  {
    hide Lexeme, LineEnd, BlockEnd;
    CommentLexeme(src, i);
    if src[i + 1] == '/' {
      next := BlankLine(src, nc, mk, i);
    } else {
      next := BlankBlock(src, nc, mk, i);
    }
  }

  lemma CommentLexeme(src: string, i: nat)
    requires i + 1 < |src| && src[i] == '/' && (src[i + 1] == '/' || src[i + 1] == '*')
    ensures Lexeme(src, i).next == if src[i + 1] == '/' then LineEnd(src, i) else BlockEnd(src, i + 2)
    ensures forall k :: 0 <= k < |Lexeme(src, i).classes| ==>
      Lexeme(src, i).classes[k] == if src[i + 1] == '/' then LineComment else BlockComment
  {
    hide LineEnd, BlockEnd;
    if src[i + 1] == '/' {
      LineEndSkips(src, i);
    }
  }

  lemma LineEndSkips(src: string, i: nat)
    requires i + 2 <= |src| && src[i] == src[i + 1] == '/'
    ensures LineEnd(src, i) == LineEnd(src, i + 2)
  {
    assert LineEnd(src, i) == LineEnd(src, i + 1);
  }

  /** One turn of the scanning loop. */
  method Turn(src: string, keep: Option<string>, nc: array<char>, mk: array<char>, i: nat, open: seq<Frame>)
    returns (next: nat, stack: seq<Frame>)
    requires nc != mk && nc.Length == mk.Length == |src| && i < |src|
    requires forall k :: i <= k < |src| ==> nc[k] == src[k] && mk[k] == src[k]
    modifies nc, mk
    ensures i < next && Advance(src, open, i).next == if next < |src| then next else |src|
    ensures stack == Advance(src, open, i).stack
    ensures Paints(src, keep, i, Advance(src, open, i).classes, old(nc[..]), old(mk[..]), nc[..], mk[..])
  {
    hide Lexeme, Paints, AdvanceTemplate;
    stack := open;
    var c := src[i];
    if !InCode(stack) {
      next, stack := TemplateTurn(src, keep, nc, mk, i, stack);
      return;
    }
    if c == '`' {
      stack := stack + [Template];
    } else if stack != [] && c == '{' {
      stack := Pop(stack) + [Interp(Top(stack).depth + 1)];
    } else if stack != [] && c == '}' {
      var depth: int := Top(stack).depth - 1;
      stack := if depth <= 0 then Pop(stack) else Pop(stack) + [Interp(depth)];
    } else {
      next := ScanLexeme(src, keep, nc, mk, i);
      return;
    }
    next := i + 1;
    CodePaints(src, keep, i, 1, nc[..], mk[..]);
    assert Run(Code, 1) == [Code];
  }

  /** Code is left as it is. */
  lemma CodePaints(src: string, keep: Option<string>, i: nat, n: nat, nc: string, mk: string)
    requires |nc| == |mk| == |src| && i + n <= |src|
    requires forall k :: i <= k < |src| ==> nc[k] == src[k] && mk[k] == src[k]
    ensures Paints(src, keep, i, Run(Code, n), nc, mk, nc, mk)
  {
  }

  method TemplateTurn(src: string, keep: Option<string>, nc: array<char>, mk: array<char>, i: nat, open: seq<Frame>)
    returns (next: nat, stack: seq<Frame>)
    requires nc != mk && nc.Length == mk.Length == |src| && i < |src| && !InCode(open)
    requires forall k :: i <= k < |src| ==> nc[k] == src[k] && mk[k] == src[k]
    modifies nc, mk
    ensures i < next && AdvanceTemplate(src, open, i).next == if next < |src| then next else |src|
    ensures stack == AdvanceTemplate(src, open, i).stack
    ensures Paints(src, keep, i, AdvanceTemplate(src, open, i).classes, old(nc[..]), old(mk[..]), nc[..], mk[..])
  {
    stack := open;
    var c := src[i];
    if c == '\\' {
      mk[i] := ' ';
      if i + 1 < |src| {
        mk[i + 1] := ' ';
      }
      next := i + 2;
    } else if c == '`' {
      stack := Pop(stack);
      next := i + 1;
    } else if c == '$' && i + 1 < |src| && src[i + 1] == '{' {
      stack := stack + [Interp(1)];
      next := i + 2;
    } else {
      if c != '\n' {
        mk[i] := ' ';
      }
      next := i + 1;
    }
  }

  /** The whole scan computes the two masks of the reference lexer. */
  method ScanSource(src: string, keep: Option<string>) returns (noComment: string, masked: string)
    ensures noComment == NoComment(src) && masked == Masked(src, keep)
  {
    hide Advance, Resume, Painted, Paints, NoComment, Masked, Lex;
    var n := |src|;
    var nc := new char[n](k requires 0 <= k < n => src[k]);
    var mk := new char[n](k requires 0 <= k < n => src[k]);
    var i: nat := 0;
    var stack: seq<Frame> := [];
    ghost var done: seq<Class> := [];
    PaintedNone(src, keep, nc[..], mk[..]);
    while i < n
      invariant |done| == if i < n then i else n
      invariant done + Resume(src, stack, |done|) == Lex(src)
      invariant Alternates(stack)
      invariant Painted(src, keep, done, nc[..], mk[..])
      decreases n - i
    {
      ghost var m := Advance(src, stack, i);
      ghost var nc0, mk0 := nc[..], mk[..];
      AdvanceResumes(src, stack, i);
      AdvanceAlternates(src, stack, i);
      PaintedAhead(src, keep, done, nc0, mk0);
      i, stack := Turn(src, keep, nc, mk, i, stack);
      PaintMore(src, keep, done, m.classes, nc0, mk0, nc[..], mk[..]);
      done := done + m.classes;
    }
    noComment, masked := nc[..], mk[..];
    PaintedAll(src, keep, done, noComment, masked);
  }

  lemma PaintedNone(src: string, keep: Option<string>, nc: string, mk: string)
    requires nc == mk == src
    ensures Painted(src, keep, [], nc, mk)
    ensures [] + Resume(src, [], 0) == Lex(src)
  {
    AtTopLevel(src, 0);
  }

  lemma PaintedAhead(src: string, keep: Option<string>, done: seq<Class>, nc: string, mk: string)
    requires Painted(src, keep, done, nc, mk)
    ensures |nc| == |mk| == |src|
    ensures forall k :: |done| <= k < |src| ==> nc[k] == src[k] && mk[k] == src[k]
  {
  }

  lemma PaintedAll(src: string, keep: Option<string>, done: seq<Class>, nc: string, mk: string)
    requires Painted(src, keep, done, nc, mk) && |done| == |src| && done <= Lex(src)
    ensures nc == NoComment(src) && mk == Masked(src, keep)
  {
    hide Lex;
    assert done == Lex(src);
  }

  // ---------------------------------------------------------------------
  // What the two masks promise
  // ---------------------------------------------------------------------

  /** Scanning with a key and without one (the empty key) differs at exactly
      the visible characters of literals whose whole content is the key. */
  lemma KeyDifference(src: string, key: string, k: nat)
    requires k < |src|
    ensures Masked(src, Some(key))[k] != Masked(src, Some(""))[k] <==>
      && Lex(src)[k].Literal? && Content(src, Lex(src)[k].from, Lex(src)[k].to) == key
      && src[k] != ' ' && src[k] != '\n'
  {
    hide Lex;
    LexSound(src);
    assert Meaningful(src, 0 + k, Lex(src)[k]);
  }

  /** A character that survives in `masked` survives in `noComment`, as itself. */
  lemma MaskedSurvivors(src: string, keep: Option<string>, k: nat)
    requires k < |src| && Masked(src, keep)[k] != ' '
    ensures Masked(src, keep)[k] == NoComment(src)[k] == src[k]
  {
    hide Lex;
  }

  /** Newlines: `noComment` loses those in block comments and no other; `masked`
      also loses one that a backslash escapes in template text. */
  lemma NewlinesKept(src: string, keep: Option<string>, k: nat)
    requires k < |src|
    ensures NoComment(src)[k] == '\n' <==> src[k] == '\n' && !Lex(src)[k].BlockComment?
    ensures Masked(src, keep)[k] == '\n' <==>
      src[k] == '\n' && !Lex(src)[k].BlockComment? && !Lex(src)[k].TemplateEscape?
  {
    hide Lex;
    LexSound(src);
    assert Meaningful(src, 0 + k, Lex(src)[k]);
  }

  /** A newline outside every comment that `masked` does not keep: a template
      literal with a line continuation. */
  lemma EscapedNewlineLost(keep: Option<string>)
    ensures var src := "`\\\n`";
      src[2] == '\n' && NoComment(src)[2] == '\n' && Masked(src, keep)[2] == ' '
  {
    hide LexTemplate, LexCode;
    var src := "`\\\n`";
    var t := LexTemplate(src, 1);
    TemplateUnfolds(src, 1);
    assert AdvanceTemplate(src, [Template], 1).classes == Run(TemplateEscape, 2);
    assert t.classes[1] == TemplateEscape;
    CodeUnfolds(src, 0);
    assert Lex(src)[2] == t.classes[1];
  }
}
