/** A recursive reference lexer for the TypeScript subset that the
    config-consumption gate understands: code, comments, quoted literals, and
    template literals whose interpolations hold code again. */
module SourceLexer {
  import opened Text

  /** What a source position belongs to. A literal position carries the extent
      of the literal's content; TemplateEscape is a backslash in template text
      or the character it protects. Delimiters are Code. */
  datatype Class =
    | Code
    | LineComment
    | BlockComment
    | Literal(from: nat, to: nat)
    | TemplateText
    | TemplateEscape

  /** A classified stretch of source and the position after it. */
  datatype Lexed = Lexed(classes: seq<Class>, next: nat)

  predicate Covers(src: string, i: nat, r: Lexed) {
    i <= r.next <= |src| && |r.classes| == r.next - i
  }

  function Run(c: Class, n: nat): (r: seq<Class>)
    ensures |r| == n && forall k :: 0 <= k < n ==> r[k] == c
  {
    seq(n, _ => c)
  }

  predicate At(src: string, i: nat, c: char) {
    i < |src| && src[i] == c
  }

  /** End of a line comment: the next newline, or the end of the source. */
  function LineEnd(src: string, i: nat): (j: nat)
    requires i <= |src|
    ensures i <= j <= |src| && (forall k :: i <= k < j ==> src[k] != '\n')
    ensures j < |src| ==> src[j] == '\n'
    decreases |src| - i
  {
    if i == |src| || src[i] == '\n' then i else LineEnd(src, i + 1)
  }

  /** Position after the next closing delimiter of a block comment, or the end. */
  function BlockEnd(src: string, j: nat): (e: nat)
    requires j <= |src|
    ensures j <= e <= |src|
    decreases |src| - j
  {
    if j + 1 >= |src| then |src|
    else if src[j] == '*' && src[j + 1] == '/' then j + 2
    else BlockEnd(src, j + 1)
  }

  /** Where the content of a literal opened by quote q stops: at the first
      unescaped q or newline, or at the end of the source. */
  function LiteralEnd(src: string, j: nat, q: char): (e: nat)
    requires j <= |src|
    ensures j <= e <= |src| && (e < |src| ==> src[e] == q || src[e] == '\n')
    decreases |src| - j
  {
    if j == |src| then j
    else if src[j] == '\\' then (if j + 1 == |src| then |src| else LiteralEnd(src, j + 2, q))
    else if src[j] == q || src[j] == '\n' then j
    else LiteralEnd(src, j + 1, q)
  }

  predicate IsQuote(c: char) {
    c == '\'' || c == '"'
  }

  /** One comment, literal or plain character in code position. */
  function Lexeme(src: string, i: nat): (r: Lexed)
    requires i < |src|
    ensures Covers(src, i, r) && i < r.next
  {
    if src[i] == '/' && At(src, i + 1, '/') then
      var j := LineEnd(src, i + 2);
      Lexed(Run(LineComment, j - i), j)
    else if src[i] == '/' && At(src, i + 1, '*') then
      var e := BlockEnd(src, i + 2);
      Lexed(Run(BlockComment, e - i), e)
    else if IsQuote(src[i]) then
      var e := LiteralEnd(src, i + 1, src[i]);
      var next := if e < |src| then e + 1 else e;
      Lexed([Code] + Run(Literal(i + 1, e), e - (i + 1)) + Run(Code, next - e), next)
    else Lexed([Code], i + 1)
  }

  function Before(c: seq<Class>, r: Lexed): Lexed {
    Lexed(c + r.classes, r.next)
  }

  /** Code up to and including the `}` that closes the current brace. */
  function LexBraced(src: string, i: nat): (r: Lexed)
    requires i <= |src|
    ensures Covers(src, i, r) && (i < |src| ==> i < r.next)
    decreases |src| - i
  {
    if i == |src| then Lexed([], i)
    else if src[i] == '}' then Lexed([Code], i + 1)
    else if src[i] == '{' then
      var inner := LexBraced(src, i + 1);
      Before([Code] + inner.classes, LexBraced(src, inner.next))
    else if src[i] == '`' then
      var inner := LexTemplate(src, i + 1);
      Before([Code] + inner.classes, LexBraced(src, inner.next))
    else
      var r := Lexeme(src, i);
      Before(r.classes, LexBraced(src, r.next))
  }

  /** Template text up to and including the closing backtick. */
  function LexTemplate(src: string, i: nat): (r: Lexed)
    requires i <= |src|
    ensures Covers(src, i, r) && (i < |src| ==> i < r.next)
    decreases |src| - i
  {
    if i == |src| then Lexed([], i)
    else if src[i] == '`' then Lexed([Code], i + 1)
    else if src[i] == '\\' then
      var next := if i + 1 < |src| then i + 2 else i + 1;
      Before(Run(TemplateEscape, next - i), LexTemplate(src, next))
    else if src[i] == '$' && At(src, i + 1, '{') then
      var inner := LexBraced(src, i + 2);
      Before([Code, Code] + inner.classes, LexTemplate(src, inner.next))
    else Before([TemplateText], LexTemplate(src, i + 1))
  }

  /** Top-level code from i to the end of the source. */
  function LexCode(src: string, i: nat): (r: seq<Class>)
    requires i <= |src|
    ensures |r| == |src| - i
    decreases |src| - i
  {
    if i == |src| then []
    else if src[i] == '`' then
      var inner := LexTemplate(src, i + 1);
      [Code] + inner.classes + LexCode(src, inner.next)
    else
      var r := Lexeme(src, i);
      r.classes + LexCode(src, r.next)
  }

  function Lex(src: string): (r: seq<Class>)
    ensures |r| == |src|
  {
    LexCode(src, 0)
  }

  // ---------------------------------------------------------------------
  // What a class says about the source
  // ---------------------------------------------------------------------

  /** Comments hold no newline unless they are block comments; a literal is
      opened by a quote and stops at that quote, a newline or the end. */
  ghost predicate Meaningful(src: string, k: nat, c: Class)
    requires k < |src|
  {
    match c
    case LineComment => src[k] != '\n'
    case Literal(from, to) =>
      && 1 <= from <= k < to <= |src| && IsQuote(src[from - 1])
      && (to < |src| ==> src[to] == src[from - 1] || src[to] == '\n')
    case _ => true
  }

  ghost predicate Sound(src: string, i: nat, classes: seq<Class>) {
    i + |classes| <= |src| && forall k :: 0 <= k < |classes| ==> Meaningful(src, i + k, classes[k])
  }

  lemma SoundConcat(src: string, i: nat, a: seq<Class>, b: seq<Class>)
    requires Sound(src, i, a) && Sound(src, i + |a|, b)
    ensures Sound(src, i, a + b)
  {
    forall k | 0 <= k < |a + b|
      ensures Meaningful(src, i + k, (a + b)[k])
    {
      if k >= |a| {
        assert Meaningful(src, i + |a| + (k - |a|), b[k - |a|]);
      }
    }
  }

  lemma SoundPlain(src: string, i: nat, cs: seq<Class>)
    requires i + |cs| <= |src|
    requires forall k :: 0 <= k < |cs| ==> cs[k] in {Code, TemplateText, TemplateEscape}
    ensures Sound(src, i, cs)
  {
  }

  lemma LexemeSound(src: string, i: nat)
    requires i < |src|
    ensures Sound(src, i, Lexeme(src, i).classes)
  {
  }

  lemma {:induction false} BracedSound(src: string, i: nat)
    requires i <= |src|
    ensures Sound(src, i, LexBraced(src, i).classes)
    decreases |src| - i
  {
    hide Lexeme, Sound;
    if i == |src| || src[i] == '}' {
      SoundPlain(src, i, LexBraced(src, i).classes);
    } else if src[i] == '{' || src[i] == '`' {
      var inner := if src[i] == '{' then LexBraced(src, i + 1) else LexTemplate(src, i + 1);
      if src[i] == '{' {
        BracedSound(src, i + 1);
      } else {
        TemplateSound(src, i + 1);
      }
      SoundPlain(src, i, [Code]);
      SoundConcat(src, i, [Code], inner.classes);
      BracedSound(src, inner.next);
      SoundConcat(src, i, [Code] + inner.classes, LexBraced(src, inner.next).classes);
    } else {
      var r := Lexeme(src, i);
      LexemeSound(src, i);
      BracedSound(src, r.next);
      SoundConcat(src, i, r.classes, LexBraced(src, r.next).classes);
    }
  }

  lemma {:induction false} TemplateSound(src: string, i: nat)
    requires i <= |src|
    ensures Sound(src, i, LexTemplate(src, i).classes)
    decreases |src| - i
  {
    hide Sound;
    if i == |src| || src[i] == '`' {
      SoundPlain(src, i, LexTemplate(src, i).classes);
    } else if src[i] == '\\' {
      var next := if i + 1 < |src| then i + 2 else i + 1;
      SoundPlain(src, i, Run(TemplateEscape, next - i));
      TemplateSound(src, next);
      SoundConcat(src, i, Run(TemplateEscape, next - i), LexTemplate(src, next).classes);
    } else if src[i] == '$' && At(src, i + 1, '{') {
      var inner := LexBraced(src, i + 2);
      SoundPlain(src, i, [Code, Code]);
      BracedSound(src, i + 2);
      SoundConcat(src, i, [Code, Code], inner.classes);
      TemplateSound(src, inner.next);
      SoundConcat(src, i, [Code, Code] + inner.classes, LexTemplate(src, inner.next).classes);
    } else {
      SoundPlain(src, i, [TemplateText]);
      TemplateSound(src, i + 1);
      SoundConcat(src, i, [TemplateText], LexTemplate(src, i + 1).classes);
    }
  }

  lemma {:induction false} CodeSound(src: string, i: nat)
    requires i <= |src|
    ensures Sound(src, i, LexCode(src, i))
    decreases |src| - i
  {
    hide Lexeme, Sound;
    if i == |src| {
      SoundPlain(src, i, []);
    } else if src[i] == '`' {
      var inner := LexTemplate(src, i + 1);
      SoundPlain(src, i, [Code]);
      TemplateSound(src, i + 1);
      SoundConcat(src, i, [Code], inner.classes);
      CodeSound(src, inner.next);
      SoundConcat(src, i, [Code] + inner.classes, LexCode(src, inner.next));
    } else {
      var r := Lexeme(src, i);
      LexemeSound(src, i);
      CodeSound(src, r.next);
      SoundConcat(src, i, r.classes, LexCode(src, r.next));
    }
  }

  /** Every position of every source is classified soundly. */
  lemma LexSound(src: string)
    ensures Sound(src, 0, Lex(src))
  {
    CodeSound(src, 0);
  }
}
