/** The two masks of a source, read off its tree of pieces. */
module SourceMasks {
  import opened Text
  import opened SourceLexer
  import opened SourceScanner
  import opened SourcePieces

  // ---------------------------------------------------------------------
  // The masks of a tree
  // ---------------------------------------------------------------------

  function Blank(s: string): (r: string)
    ensures |r| == |s| && forall k :: 0 <= k < |s| ==> r[k] == ' '
  {
    seq(|s|, _ => ' ')
  }

  /** Blanks everything but newlines. */
  function Veil(s: string): (r: string)
    ensures |r| == |s| && forall k :: 0 <= k < |s| ==> r[k] == if s[k] == '\n' then '\n' else ' '
  {
    seq(|s|, k requires 0 <= k < |s| => if s[k] == '\n' then '\n' else ' ')
  }

  function BitMasked(b: Bit, keep: Option<string>): (r: string)
    ensures |r| == |BitText(b)|
  {
    match b
    case Plain(c) => [c]
    case LineNote(_) => Blank(BitText(b))
    case BlockNote(_, _) => Blank(BitText(b))
    case Quoted(q, body, end) => [q] + (if keep == Some(body) then body else Veil(body)) + EndText(q, end)
  }

  /** Comments are blank; so are template text and literals other than the key,
      newlines apart. */
  function RegionMasked(r: Region, keep: Option<string>): (m: string)
    ensures |m| == |RegionText(r)|
  {
    match r
    case Done => ""
    case Then(bit, rest) => BitMasked(bit, keep) + RegionMasked(rest, keep)
    case Backtick(body, closed, rest) => Enclosed("`", BodyMasked(body, keep), Mark(closed, '`')) + RegionMasked(rest, keep)
    case Braces(inner, closed, rest) => Enclosed("{", RegionMasked(inner, keep), Mark(closed, '}')) + RegionMasked(rest, keep)
  }

  function BodyMasked(b: Body, keep: Option<string>): (m: string)
    ensures |m| == |BodyText(b)|
  {
    match b
    case Empty => ""
    case Letter(c, tail) => Veil([c]) + BodyMasked(tail, keep)
    case Escape(guarded, tail) => Blank("\\" + guarded) + BodyMasked(tail, keep)
    case Hole(code, closed, tail) => Enclosed("${", RegionMasked(code, keep), Mark(closed, '}')) + BodyMasked(tail, keep)
  }

  function BitBare(b: Bit): (r: string)
    ensures |r| == |BitText(b)|
  {
    if b.LineNote? || b.BlockNote? then Blank(BitText(b)) else BitText(b)
  }

  /** Only comments are blank. */
  function RegionBare(r: Region): (m: string)
    ensures |m| == |RegionText(r)|
  {
    match r
    case Done => ""
    case Then(bit, rest) => BitBare(bit) + RegionBare(rest)
    case Backtick(body, closed, rest) => Enclosed("`", BodyBare(body), Mark(closed, '`')) + RegionBare(rest)
    case Braces(inner, closed, rest) => Enclosed("{", RegionBare(inner), Mark(closed, '}')) + RegionBare(rest)
  }

  function BodyBare(b: Body): (m: string)
    ensures |m| == |BodyText(b)|
  {
    match b
    case Empty => ""
    case Letter(c, tail) => [c] + BodyBare(tail)
    case Escape(guarded, tail) => ("\\" + guarded) + BodyBare(tail)
    case Hole(code, closed, tail) => Enclosed("${", RegionBare(code), Mark(closed, '}')) + BodyBare(tail)
  }

  /** The text at i, whose classes are cs, is masked as `bare` and `masked`. */
  ghost predicate Shows(src: string, keep: Option<string>, i: nat, cs: seq<Class>, bare: string, masked: string) {
    && |bare| == |masked| == |cs| && i + |cs| <= |src|
    && forall k :: 0 <= k < |cs| ==>
         bare[k] == NoCommentChar(src[i + k], cs[k]) && masked[k] == MaskedChar(src, keep, src[i + k], cs[k])
  }

  lemma ShowsConcat(src: string, keep: Option<string>, i: nat, a: seq<Class>, bareA: string, maskedA: string,
                    b: seq<Class>, bareB: string, maskedB: string)
    requires Shows(src, keep, i, a, bareA, maskedA) && Shows(src, keep, i + |a|, b, bareB, maskedB)
    ensures Shows(src, keep, i, a + b, bareA + bareB, maskedA + maskedB)
  {
    hide NoCommentChar, MaskedChar;
    forall k | 0 <= k < |a + b|
      ensures (bareA + bareB)[k] == NoCommentChar(src[i + k], (a + b)[k])
      ensures (maskedA + maskedB)[k] == MaskedChar(src, keep, src[i + k], (a + b)[k])
    {
      if k >= |a| {
        assert src[i + k] == src[i + |a| + (k - |a|)];
      }
    }
  }

  /** Delimiters show as themselves. */
  lemma ShowsCode(src: string, keep: Option<string>, i: nat, t: string, after: string)
    requires Stands(src, i, t, after)
    ensures Shows(src, keep, i, Run(Code, |t|), t, t)
  {
    StandsAt(src, i, t, after);
  }

  lemma ShowsLiteral(src: string, keep: Option<string>, i: nat, body: string, after: string)
    requires Stands(src, i, body, after)
    ensures Shows(src, keep, i, Run(Literal(i, i + |body|), |body|), body, if keep == Some(body) then body else Veil(body))
  {
    hide Stands;
    StandsAt(src, i, body, after);
    assert Content(src, i, i + |body|) == body;
  }

  lemma ShowsNote(src: string, keep: Option<string>, i: nat, t: string, after: string, c: Class)
    requires Stands(src, i, t, after) && (c == LineComment || c == BlockComment)
    ensures Shows(src, keep, i, Run(c, |t|), Blank(t), Blank(t))
  {
    hide Stands;
    StandsAt(src, i, t, after);
  }

  lemma ShowsBit(src: string, keep: Option<string>, i: nat, b: Bit, after: string)
    requires Stands(src, i, BitText(b), after)
    ensures Shows(src, keep, i, BitClasses(b, i), BitBare(b), BitMasked(b, keep))
  {
    hide Stands, Shows;
    match b
    case Plain(c) =>
      ShowsCode(src, keep, i, [c], after);
      assert Run(Code, 1) == [Code];
    case LineNote(_) => ShowsNote(src, keep, i, BitText(b), after, LineComment);
    case BlockNote(_, _) => ShowsNote(src, keep, i, BitText(b), after, BlockComment);
    case Quoted(q, body, end) =>
      var e := EndText(q, end);
      StandsSplit(src, i, [q] + body, e, after);
      StandsSplit(src, i, [q], body, e + after);
      ShowsCode(src, keep, i, [q], body + (e + after));
      ShowsLiteral(src, keep, i + 1, body, e + after);
      var veiled := if keep == Some(body) then body else Veil(body);
      var content := Run(Literal(i + 1, i + 1 + |body|), |body|);
      ShowsConcat(src, keep, i, Run(Code, 1), [q], [q], content, body, veiled);
      ShowsCode(src, keep, i + |[q] + body|, e, after);
      ShowsConcat(src, keep, i, Run(Code, 1) + content, [q] + body, [q] + veiled, Run(Code, |e|), e, e);
      assert Run(Code, 1) == [Code];
  }

  /** An opening delimiter, an inside and a closing delimiter. */
  lemma ShowsEnclosed(src: string, keep: Option<string>, i: nat, open: string, text: string, close: string, after: string,
                      cs: seq<Class>, bare: string, masked: string)
    requires Stands(src, i, Enclosed(open, text, close), after) && |cs| == |text|
    requires Shows(src, keep, i + |open|, cs, bare, masked)
    ensures Shows(src, keep, i, EnclosedClasses(|open|, cs, |close|), Enclosed(open, bare, close), Enclosed(open, masked, close))
  {
    assert |bare| == |masked| == |cs|;
    hide Stands, Shows;
    StandsSplit(src, i, open + text, close, after);
    StandsSplit(src, i, open, text, close + after);
    ShowsCode(src, keep, i, open, text + (close + after));
    ShowsConcat(src, keep, i, Run(Code, |open|), open, open, cs, bare, masked);
    ShowsCode(src, keep, i + |open + text|, close, after);
    ShowsConcat(src, keep, i, Run(Code, |open|) + cs, open + bare, open + masked, Run(Code, |close|), close, close);
  }

  ghost predicate ShowsR(src: string, keep: Option<string>, i: nat, r: Region) {
    Shows(src, keep, i, RegionClasses(r, i), RegionBare(r), RegionMasked(r, keep))
  }

  ghost predicate ShowsB(src: string, keep: Option<string>, i: nat, b: Body) {
    Shows(src, keep, i, BodyClasses(b, i), BodyBare(b), BodyMasked(b, keep))
  }

  /** A first piece and the rest. */
  lemma {:induction false} RegionShows(src: string, keep: Option<string>, i: nat, r: Region, cs: seq<Class>, bare: string,
                                       masked: string, rest: Region)
    requires Shows(src, keep, i, cs, bare, masked) && ShowsR(src, keep, i + |cs|, rest)
    requires RegionClasses(r, i) == cs + RegionClasses(rest, i + |cs|)
    requires RegionBare(r) == bare + RegionBare(rest) && RegionMasked(r, keep) == masked + RegionMasked(rest, keep)
    ensures ShowsR(src, keep, i, r)
  {
    hide Shows, RegionClasses, RegionBare, RegionMasked;
    ShowsConcat(src, keep, i, cs, bare, masked, RegionClasses(rest, i + |cs|), RegionBare(rest), RegionMasked(rest, keep));
  }

  lemma {:induction false} BodyShows(src: string, keep: Option<string>, i: nat, b: Body, cs: seq<Class>, bare: string,
                                     masked: string, tail: Body)
    requires Shows(src, keep, i, cs, bare, masked) && ShowsB(src, keep, i + |cs|, tail)
    requires BodyClasses(b, i) == cs + BodyClasses(tail, i + |cs|)
    requires BodyBare(b) == bare + BodyBare(tail) && BodyMasked(b, keep) == masked + BodyMasked(tail, keep)
    ensures ShowsB(src, keep, i, b)
  {
    hide Shows, BodyClasses, BodyBare, BodyMasked;
    ShowsConcat(src, keep, i, cs, bare, masked, BodyClasses(tail, i + |cs|), BodyBare(tail), BodyMasked(tail, keep));
  }

  lemma {:induction false} ShowsRegion(src: string, keep: Option<string>, i: nat, r: Region, after: string)
    requires Stands(src, i, RegionText(r), after)
    ensures ShowsR(src, keep, i, r)
    decreases r, 1
  {
    hide Stands, ShowsR, RegionText;
    match r
    case Done => ShowsDone(src, keep, i, after);
    case Then(bit, rest) => ShowsThen(src, keep, i, bit, rest, after);
    case Backtick(body, closed, rest) => ShowsTick(src, keep, i, body, closed, rest, after);
    case Braces(inner, closed, rest) => ShowsBraces(src, keep, i, inner, closed, rest, after);
  }

  lemma {:induction false} ShowsDone(src: string, keep: Option<string>, i: nat, after: string)
    requires Stands(src, i, RegionText(Done), after) || Stands(src, i, BodyText(Empty), after)
    ensures ShowsR(src, keep, i, Done) && ShowsB(src, keep, i, Empty)
  {
    assert RegionText(Done) == "" && BodyText(Empty) == "";
    ShowsCode(src, keep, i, "", after);
  }

  lemma {:induction false} ShowsThen(src: string, keep: Option<string>, i: nat, bit: Bit, rest: Region, after: string)
    requires Stands(src, i, RegionText(Then(bit, rest)), after)
    ensures ShowsR(src, keep, i, Then(bit, rest))
    decreases Then(bit, rest), 0
  {
    ThenUnfold(bit, rest, i);
    ThenMasks(bit, rest, keep);
    hide Stands, Shows, ShowsR, RegionText, RegionClasses, RegionBare, RegionMasked, BitText, BitClasses, BitBare, BitMasked;
    StandsSplit(src, i, BitText(bit), RegionText(rest), after);
    ShowsBit(src, keep, i, bit, RegionText(rest) + after);
    ShowsRegion(src, keep, i + |BitText(bit)|, rest, after);
    RegionShows(src, keep, i, Then(bit, rest), BitClasses(bit, i), BitBare(bit), BitMasked(bit, keep), rest);
  }

  lemma {:induction false} ThenMasks(bit: Bit, rest: Region, keep: Option<string>)
    ensures RegionBare(Then(bit, rest)) == BitBare(bit) + RegionBare(rest)
    ensures RegionMasked(Then(bit, rest), keep) == BitMasked(bit, keep) + RegionMasked(rest, keep)
  {
    hide BitBare, BitMasked, RegionText;
  }

  lemma {:induction false} ShowsTick(src: string, keep: Option<string>, i: nat, body: Body, closed: bool, rest: Region,
                                     after: string)
    requires Stands(src, i, RegionText(Backtick(body, closed, rest)), after)
    ensures ShowsR(src, keep, i, Backtick(body, closed, rest))
    decreases Backtick(body, closed, rest), 0
  {
    TickUnfold(body, closed, rest, i);
    TickMasks(body, closed, rest, keep);
    hide Stands, Shows, ShowsR, RegionText, RegionClasses, RegionBare, RegionMasked, BodyText, BodyClasses, BodyBare,
         BodyMasked, Enclosed, EnclosedClasses;
    var close, tail := Mark(closed, '`'), RegionText(rest) + after;
    var head := Enclosed("`", BodyText(body), close);
    StandsSplit(src, i, head, RegionText(rest), after);
    OpenedReads(src, i, '`', BodyText(body), closed, '`', tail);
    ShowsBody(src, keep, i + 1, body, close + tail);
    ShowsEnclosed(src, keep, i, "`", BodyText(body), close, tail, BodyClasses(body, i + 1), BodyBare(body), BodyMasked(body, keep));
    ShowsRegion(src, keep, i + |head|, rest, after);
    RegionShows(src, keep, i, Backtick(body, closed, rest), EnclosedClasses(1, BodyClasses(body, i + 1), |close|),
                Enclosed("`", BodyBare(body), close), Enclosed("`", BodyMasked(body, keep), close), rest);
  }

  lemma {:induction false} TickMasks(body: Body, closed: bool, rest: Region, keep: Option<string>)
    ensures var r := Backtick(body, closed, rest);
      && RegionBare(r) == Enclosed("`", BodyBare(body), Mark(closed, '`')) + RegionBare(rest)
      && RegionMasked(r, keep) == Enclosed("`", BodyMasked(body, keep), Mark(closed, '`')) + RegionMasked(rest, keep)
  {
    hide BodyBare, BodyMasked, Enclosed, RegionText, BodyText;
  }

  lemma {:induction false} ShowsBraces(src: string, keep: Option<string>, i: nat, inner: Region, closed: bool, rest: Region,
                                       after: string)
    requires Stands(src, i, RegionText(Braces(inner, closed, rest)), after)
    ensures ShowsR(src, keep, i, Braces(inner, closed, rest))
    decreases Braces(inner, closed, rest), 0
  {
    BracesText(inner, closed, rest);
    BracesClasses(inner, closed, rest, i);
    BracesMasks(inner, closed, rest, keep);
    hide Stands, Shows, RegionText, RegionClasses, RegionBare, RegionMasked, Enclosed, EnclosedClasses;
    var close, tail := Mark(closed, '}'), RegionText(rest) + after;
    var head := Enclosed("{", RegionText(inner), close);
    StandsSplit(src, i, head, RegionText(rest), after);
    OpenedReads(src, i, '{', RegionText(inner), closed, '}', tail);
    ShowsRegion(src, keep, i + 1, inner, close + tail);
    ShowsEnclosed(src, keep, i, "{", RegionText(inner), close, tail,
                  RegionClasses(inner, i + 1), RegionBare(inner), RegionMasked(inner, keep));
    ShowsRegion(src, keep, i + |head|, rest, after);
    hide ShowsR;
    RegionShows(src, keep, i, Braces(inner, closed, rest), EnclosedClasses(1, RegionClasses(inner, i + 1), |close|),
                Enclosed("{", RegionBare(inner), close), Enclosed("{", RegionMasked(inner, keep), close), rest);
  }

  lemma {:induction false} BracesMasks(inner: Region, closed: bool, rest: Region, keep: Option<string>)
    ensures var r := Braces(inner, closed, rest);
      && RegionBare(r) == Enclosed("{", RegionBare(inner), Mark(closed, '}')) + RegionBare(rest)
      && RegionMasked(r, keep) == Enclosed("{", RegionMasked(inner, keep), Mark(closed, '}')) + RegionMasked(rest, keep)
  {
    hide Enclosed, RegionText;
  }

  lemma {:induction false} ShowsBody(src: string, keep: Option<string>, i: nat, b: Body, after: string)
    requires Stands(src, i, BodyText(b), after)
    ensures ShowsB(src, keep, i, b)
    decreases b, 1
  {
    hide Stands, ShowsB, BodyText;
    match b
    case Empty => ShowsDone(src, keep, i, after);
    case Letter(c, tail) => ShowsLetter(src, keep, i, c, tail, after);
    case Escape(guarded, tail) => ShowsGuarded(src, keep, i, guarded, tail, after);
    case Hole(code, closed, tail) => ShowsHole(src, keep, i, code, closed, tail, after);
  }

  lemma {:induction false} LetterMasks(c: char, tail: Body, keep: Option<string>)
    ensures BodyBare(Letter(c, tail)) == [c] + BodyBare(tail)
    ensures BodyMasked(Letter(c, tail), keep) == Veil([c]) + BodyMasked(tail, keep)
  {
    hide RegionBare, RegionMasked, BodyText, Veil, Blank;
  }

  lemma {:induction false} EscapeMasks(guarded: string, tail: Body, keep: Option<string>)
    ensures BodyBare(Escape(guarded, tail)) == ("\\" + guarded) + BodyBare(tail)
    ensures BodyMasked(Escape(guarded, tail), keep) == Blank("\\" + guarded) + BodyMasked(tail, keep)
  {
    hide RegionBare, RegionMasked, BodyText, Veil, Blank;
  }

  lemma {:induction false} ShowsLetter(src: string, keep: Option<string>, i: nat, c: char, tail: Body, after: string)
    requires Stands(src, i, BodyText(Letter(c, tail)), after)
    ensures ShowsB(src, keep, i, Letter(c, tail))
    decreases Letter(c, tail), 0
  {
    LetterUnfold(c, tail, i);
    LetterMasks(c, tail, keep);
    hide Stands, Shows, ShowsB, BodyText, BodyClasses, BodyBare, BodyMasked;
    StandsSplit(src, i, [c], BodyText(tail), after);
    ShowsText(src, keep, i, c, BodyText(tail) + after);
    ShowsBody(src, keep, i + 1, tail, after);
    BodyShows(src, keep, i, Letter(c, tail), [TemplateText], [c], Veil([c]), tail);
  }

  lemma {:induction false} ShowsGuarded(src: string, keep: Option<string>, i: nat, guarded: string, tail: Body, after: string)
    requires Stands(src, i, BodyText(Escape(guarded, tail)), after)
    ensures ShowsB(src, keep, i, Escape(guarded, tail))
    decreases Escape(guarded, tail), 0
  {
    var t := "\\" + guarded;
    EscapeUnfold(guarded, tail, i);
    EscapeMasks(guarded, tail, keep);
    hide Stands, Shows, ShowsB, BodyText, BodyClasses, BodyBare, BodyMasked;
    StandsSplit(src, i, t, BodyText(tail), after);
    ShowsEscape(src, keep, i, t, BodyText(tail) + after);
    ShowsBody(src, keep, i + |t|, tail, after);
    BodyShows(src, keep, i, Escape(guarded, tail), Run(TemplateEscape, |t|), t, Blank(t), tail);
  }

  lemma {:induction false} ShowsHole(src: string, keep: Option<string>, i: nat, code: Region, closed: bool, tail: Body,
                                     after: string)
    requires Stands(src, i, BodyText(Hole(code, closed, tail)), after)
    ensures ShowsB(src, keep, i, Hole(code, closed, tail))
    decreases Hole(code, closed, tail), 0
  {
    HoleUnfold(code, closed, tail, i);
    HoleMasks(code, closed, tail, keep);
    hide Stands, Shows, ShowsB, RegionText, RegionClasses, RegionBare, RegionMasked, BodyText, BodyClasses, BodyBare,
         BodyMasked, Enclosed, EnclosedClasses;
    var close, rest := Mark(closed, '}'), BodyText(tail) + after;
    var head := Enclosed("${", RegionText(code), close);
    StandsSplit(src, i, head, BodyText(tail), after);
    HoleReads(src, i, code, closed, rest);
    ShowsRegion(src, keep, i + 2, code, close + rest);
    ShowsEnclosed(src, keep, i, "${", RegionText(code), close, rest,
                  RegionClasses(code, i + 2), RegionBare(code), RegionMasked(code, keep));
    ShowsBody(src, keep, i + |head|, tail, after);
    BodyShows(src, keep, i, Hole(code, closed, tail), EnclosedClasses(2, RegionClasses(code, i + 2), |close|),
              Enclosed("${", RegionBare(code), close), Enclosed("${", RegionMasked(code, keep), close), tail);
  }

  lemma {:induction false} HoleMasks(code: Region, closed: bool, tail: Body, keep: Option<string>)
    ensures var b := Hole(code, closed, tail);
      && BodyBare(b) == Enclosed("${", RegionBare(code), Mark(closed, '}')) + BodyBare(tail)
      && BodyMasked(b, keep) == Enclosed("${", RegionMasked(code, keep), Mark(closed, '}')) + BodyMasked(tail, keep)
  {
    hide RegionBare, RegionMasked, Enclosed, RegionText, BodyText;
  }

  lemma ShowsText(src: string, keep: Option<string>, i: nat, c: char, after: string)
    requires Stands(src, i, [c], after)
    ensures Shows(src, keep, i, [TemplateText], [c], Veil([c]))
  {
    hide Stands;
    StandsAt(src, i, [c], after);
  }

  lemma ShowsEscape(src: string, keep: Option<string>, i: nat, t: string, after: string)
    requires Stands(src, i, t, after)
    ensures Shows(src, keep, i, Run(TemplateEscape, |t|), t, Blank(t))
  {
    hide Stands;
    StandsAt(src, i, t, after);
  }

  /** Both masks of every well-formed tree, piece by piece: `noComment` blanks
      the comments; `masked` also blanks template text, and the literals other
      than the key. */
  lemma MaskedPieces(r: Region, keep: Option<string>)
    requires RegionOk(r, false, "")
    ensures NoComment(RegionText(r)) == RegionBare(r) && Masked(RegionText(r), keep) == RegionMasked(r, keep)
  {
    hide NoCommentChar, MaskedChar, Lex, RegionText, RegionClasses, RegionBare, RegionMasked;
    var src := RegionText(r);
    assert src[0..] == src + "";
    ShowsRegion(src, keep, 0, r, "");
    LexPieces(r);
    forall k | 0 <= k < |src|
      ensures NoComment(src)[k] == RegionBare(r)[k] && Masked(src, keep)[k] == RegionMasked(r, keep)[k]
    {
      assert src[0 + k] == src[k];
    }
  }

  /** So every source is scanned as its tree says. */
  lemma EverySourceMasked(src: string, keep: Option<string>)
    ensures NoComment(src) == RegionBare(TreeOf(src)) && Masked(src, keep) == RegionMasked(TreeOf(src), keep)
  {
    hide NoComment, Masked;
    MaskedPieces(TreeOf(src), keep);
  }
}
