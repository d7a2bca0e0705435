/** The six-state comment stripper shared by the core-events, shell-audit and
    trajectory gates. */
module CommentStripper {
  import opened Text

  /** `Quoted` stands for the three literal states, one per quote character. */
  datatype State = Code | Line | Block | Quoted(q: char)

  predicate IsQuote(c: char) {
    c == '\'' || c == '"' || c == '`'
  }

  predicate Starts(s: string, a: char, b: char) {
    |s| >= 2 && s[0] == a && s[1] == b
  }

  /** What the machine emits for the rest of the source from a given state. */
  function Strip(st: State, s: string): string
    decreases |s|
  {
    if s == "" then "" else
      match st
      case Code =>
        if Starts(s, '/', '/') then Strip(Line, s[2..])
        else if Starts(s, '/', '*') then Strip(Block, s[2..])
        else [s[0]] + Strip(if IsQuote(s[0]) then Quoted(s[0]) else Code, s[1..])
      case Line => if s[0] == '\n' then "\n" + Strip(Code, s[1..]) else Strip(Line, s[1..])
      case Block => if Starts(s, '*', '/') then Strip(Code, s[2..]) else Strip(Block, s[1..])
      case Quoted(q) =>
        if s[0] == '\\' then (if |s| == 1 then s else s[..2] + Strip(st, s[2..]))
        else [s[0]] + Strip(if s[0] == q then Code else st, s[1..])
  }

  /** One turn: what is emitted, the next state and the characters consumed. */
  lemma StripTurn(st: State, s: string)
    requires s != ""
    ensures st.Code? && Starts(s, '/', '/') ==> Strip(st, s) == Strip(Line, s[2..])
    ensures st.Code? && Starts(s, '/', '*') ==> Strip(st, s) == Strip(Block, s[2..])
    ensures st.Code? && !Starts(s, '/', '/') && !Starts(s, '/', '*') ==>
      Strip(st, s) == [s[0]] + Strip(if IsQuote(s[0]) then Quoted(s[0]) else Code, s[1..])
    ensures st.Line? ==> Strip(st, s) == if s[0] == '\n' then "\n" + Strip(Code, s[1..]) else Strip(Line, s[1..])
    ensures st.Block? ==> Strip(st, s) == if Starts(s, '*', '/') then Strip(Code, s[2..]) else Strip(Block, s[1..])
    ensures st.Quoted? && s[0] == '\\' ==>
      Strip(st, s) == if |s| == 1 then s + Strip(st, "") else s[..2] + Strip(st, s[2..])
    ensures st.Quoted? && s[0] != '\\' ==> Strip(st, s) == [s[0]] + Strip(if s[0] == st.q then Code else st, s[1..])
  {
    if st.Quoted? && |s| == 1 {
      assert s + "" == s;
    }
  }

  lemma StripEmits(out: string, st: State, s: string, piece: string, st': State, s': string)
    requires Strip(st, s) == piece + Strip(st', s')
    ensures out + Strip(st, s) == (out + piece) + Strip(st', s')
  {
  }

  method StripComments(source: string) returns (out: string)
    ensures out == Strip(Code, source)
  {
    hide Strip;
    StripEmpty(Code);
    out := "";
    var i: nat := 0;
    var state := Code;
    while i < |source|
      invariant out + Strip(state, if i < |source| then source[i..] else "") == Strip(Code, source)
      decreases |source| - i
    {
      var ch := source[i];
      ghost var s := source[i..];
      ghost var out0, state0 := out, state;
      if i + 1 < |source| {
        assert s[1] == source[i + 1];
        assert s[2..] == source[i + 2..];
        assert s[..2] == [ch, source[i + 1]];
      } else {
        assert s == [ch];
      }
      assert s[1..] == source[i + 1..];
      StripTurn(state, s);
      var emit := "";
      match state {
        case Code =>
          if ch == '/' && i + 1 < |source| && source[i + 1] == '/' {
            state, i := Line, i + 2;
          } else if ch == '/' && i + 1 < |source| && source[i + 1] == '*' {
            state, i := Block, i + 2;
          } else {
            if IsQuote(ch) {
              state := Quoted(ch);
            }
            emit, i := [ch], i + 1;
          }
        case Line =>
          if ch == '\n' {
            state, emit := Code, [ch];
          }
          i := i + 1;
        case Block =>
          if ch == '*' && i + 1 < |source| && source[i + 1] == '/' {
            state, i := Code, i + 2;
          } else {
            i := i + 1;
          }
        case Quoted(q) =>
          if ch == '\\' {
            emit := if i + 1 < |source| then [ch, source[i + 1]] else [ch];
            i := i + 2;
          } else {
            if ch == q {
              state := Code;
            }
            emit, i := [ch], i + 1;
          }
      }
      ghost var s' := if i < |source| then source[i..] else "";
      assert "" + Strip(state, s') == Strip(state, s');
      StripEmits(out0, state0, s, emit, state, s');
      out := out + emit;
    }
    StripEmpty(state);
  }

  lemma StripEmpty(st: State)
    ensures Strip(st, "") == ""
  {
  }

  // ---------------------------------------------------------------------
  // Sources as sequences of pieces
  // ---------------------------------------------------------------------

  /** The last two are the constructs that run to the end of the source. */
  datatype Piece =
    | Plain(c: char)
    | LineComment(body: string)
    | BlockComment(body: string)
    | Literal(q: char, body: string)
    | OpenComment(body: string)
    | OpenLiteral(q: char, body: string)

  function PieceText(p: Piece): string {
    match p
    case Plain(c) => [c]
    case LineComment(body) => "//" + body
    case BlockComment(body) => "/*" + body + "*/"
    case Literal(q, body) => [q] + body + [q]
    case OpenComment(body) => "/*" + body
    case OpenLiteral(q, body) => [q] + body
  }

  function Render(ps: seq<Piece>): string {
    if ps == [] then "" else PieceText(ps[0]) + Render(ps[1..])
  }

  predicate IsComment(p: Piece) {
    p.LineComment? || p.BlockComment? || p.OpenComment?
  }

  /** The pieces that are not comments, in order and verbatim. */
  function Kept(ps: seq<Piece>): seq<Piece> {
    if ps == [] then []
    else if IsComment(ps[0]) then Kept(ps[1..])
    else [ps[0]] + Kept(ps[1..])
  }

  /** No closing delimiter anywhere in s. */
  predicate NoClose(s: string) {
    forall k :: 0 <= k < |s| - 1 ==> !(s[k] == '*' && s[k + 1] == '/')
  }

  /** Literal content: backslashes come with the character they protect, and
      the quote appears only so protected. An open literal may end in a lone
      backslash. */
  predicate Body(s: string, q: char, open: bool) {
    s == ""
    || (s[0] == '\\' && |s| >= 2 && Body(s[2..], q, open))
    || (s[0] != '\\' && s[0] != q && Body(s[1..], q, open))
    || (open && s == "\\")
  }

  predicate QuoteMark(c: char) {
    c in {'\'', '"', '`'}
  }

  predicate PieceOk(p: Piece, rest: string) {
    match p
    case Plain(c) => !QuoteMark(c) && (c == '/' && rest != "" ==> rest[0] != '/' && rest[0] != '*')
    case LineComment(body) => '\n' !in body && (rest != "" ==> rest[0] == '\n')
    case BlockComment(body) => NoClose(body + "*")
    case Literal(q, body) => QuoteMark(q) && Body(body, q, false)
    case OpenComment(body) => NoClose(body) && rest == ""
    case OpenLiteral(q, body) => QuoteMark(q) && Body(body, q, true) && rest == ""
  }

  predicate WellFormed(ps: seq<Piece>) {
    ps == [] || (PieceOk(ps[0], Render(ps[1..])) && WellFormed(ps[1..]))
  }

  lemma {:induction false} StripLine(body: string, rest: string)
    requires '\n' !in body && (rest != "" ==> rest[0] == '\n')
    ensures Strip(Line, body + rest) == Strip(Code, rest)
  {
    if body == "" {
      assert body + rest == rest;
      if rest != "" {
        assert !Starts(rest, '/', '/') && !Starts(rest, '/', '*');
      }
    } else {
      assert body[0] == (body + rest)[0];
      assert (body + rest)[1..] == body[1..] + rest;
      StripLine(body[1..], rest);
    }
  }

  lemma {:induction false} StripBlock(body: string, rest: string)
    requires NoClose(body + "*")
    ensures Strip(Block, body + "*/" + rest) == Strip(Code, rest)
  {
    var s := body + "*/" + rest;
    if body == "" {
      assert s[2..] == rest;
    } else {
      assert s[1..] == body[1..] + "*/" + rest;
      assert (body + "*")[1..] == body[1..] + "*";
      assert s[0] == (body + "*")[0] && s[1] == (body + "*")[1];
      assert forall k :: 0 <= k < |body| ==> (body[1..] + "*")[k] == (body + "*")[k + 1];
      StripBlock(body[1..], rest);
    }
  }

  lemma {:induction false} StripOpenBlock(body: string)
    requires NoClose(body)
    ensures Strip(Block, body) == ""
  {
    if body != "" {
      assert forall k :: 0 <= k < |body| - 1 ==> body[1..][k] == body[k + 1];
      StripOpenBlock(body[1..]);
    }
  }

  /** A character, or a backslash and the character after it. */
  predicate Unit(x: string, q: char) {
    if |x| == 1 then x[0] != '\\' && x[0] != q else |x| == 2 && x[0] == '\\'
  }

  lemma StripUnit(q: char, x: string, rest: string)
    requires Unit(x, q)
    ensures Strip(Quoted(q), x + rest) == x + Strip(Quoted(q), rest)
  {
    var s := x + rest;
    assert s[..|x|] == x && s[|x|..] == rest && s[0] == x[0];
    assert |x| == 1 ==> [s[0]] == x;
  }

  lemma StripClosing(q: char, rest: string)
    requires q != '\\'
    ensures Strip(Quoted(q), [q] + rest) == [q] + Strip(Code, rest)
  {
    assert ([q] + rest)[1..] == rest;
  }

  lemma {:induction false} StripBody(q: char, body: string, rest: string)
    requires q != '\\' && Body(body, q, false)
    ensures Strip(Quoted(q), body + [q] + rest) == body + [q] + Strip(Code, rest)
  {
    hide Strip;
    if body == "" {
      assert body + [q] + rest == [q] + rest;
      StripClosing(q, rest);
    } else {
      var n := if body[0] == '\\' then 2 else 1;
      var x, tail := body[..n], body[n..];
      StripBody(q, tail, rest);
      assert Unit(x, q);
      hide Body, Unit;
      StripUnit(q, x, tail + [q] + rest);
      assert body == x + tail;
      assert x + tail + [q] + rest == x + (tail + [q] + rest);
    }
  }

  lemma {:induction false} StripOpenBody(q: char, body: string)
    requires q != '\\' && Body(body, q, true)
    ensures Strip(Quoted(q), body) == body
  {
    if body != "" && body != "\\" {
      var n := if body[0] == '\\' then 2 else 1;
      StripOpenBody(q, body[n..]);
      assert body == body[..n] + body[n..];
    }
  }

  /** Stripping removes the comments of a piecewise source and nothing else. */
  lemma {:induction false} StripPieces(ps: seq<Piece>)
    requires WellFormed(ps)
    ensures Strip(Code, Render(ps)) == Render(Kept(ps))
  {
    if ps != [] {
      var p, rest := ps[0], Render(ps[1..]);
      var s := PieceText(p) + rest;
      StripPieces(ps[1..]);
      StripPiece(p, rest);
      if !IsComment(p) {
        assert ([p] + Kept(ps[1..]))[1..] == Kept(ps[1..]);
      }
    }
  }

  lemma StripPiece(p: Piece, rest: string)
    requires PieceOk(p, rest)
    ensures Strip(Code, PieceText(p) + rest) == (if IsComment(p) then "" else PieceText(p)) + Strip(Code, rest)
  {
    hide Strip, Body, NoClose;
    var s := PieceText(p) + rest;
    StripTurn(Code, s);
    if IsComment(p) {
      StripCommentPiece(p, rest);
    } else if p.Plain? {
      assert s[1..] == rest;
    } else {
      StripLiteralPiece(p, rest);
    }
  }

  lemma StripCommentPiece(p: Piece, rest: string)
    requires PieceOk(p, rest) && IsComment(p)
    ensures Strip(Code, PieceText(p) + rest) == Strip(Code, rest)
  {
    hide Strip, NoClose;
    match p
    case LineComment(body) =>
      EnterComment('/', Line, body + rest);
      assert PieceText(p) + rest == "//" + (body + rest);
      StripLine(body, rest);
    case BlockComment(body) =>
      EnterComment('*', Block, body + "*/" + rest);
      assert PieceText(p) + rest == "/*" + (body + "*/" + rest);
      StripBlock(body, rest);
    case OpenComment(body) =>
      EnterComment('*', Block, body);
      assert PieceText(p) + rest == "/*" + body;
      StripOpenBlock(body);
      StripEmpty(Code);
  }

  lemma EnterComment(c: char, st: State, s: string)
    requires (c == '/' && st == Line) || (c == '*' && st == Block)
    ensures Strip(Code, ['/', c] + s) == Strip(st, s)
  {
    hide Strip;
    var t := ['/', c] + s;
    StripTurn(Code, t);
    assert t[2..] == s;
  }

  lemma StripLiteralPiece(p: Piece, rest: string)
    requires PieceOk(p, rest) && (p.Literal? || p.OpenLiteral?)
    ensures Strip(Code, PieceText(p) + rest) == PieceText(p) + Strip(Code, rest)
  {
    hide Strip, Body;
    var s := PieceText(p) + rest;
    StripTurn(Code, s);
    if p.Literal? {
      assert s[1..] == p.body + [p.q] + rest;
      StripBody(p.q, p.body, rest);
      assert [p.q] + (p.body + [p.q] + Strip(Code, rest)) == PieceText(p) + Strip(Code, rest);
    } else {
      assert s[1..] == p.body;
      StripOpenBody(p.q, p.body);
      StripEmpty(Code);
    }
  }

  // ---------------------------------------------------------------------
  // Every source is a sequence of pieces
  // ---------------------------------------------------------------------

  /** Offset of the first closing delimiter, or |s|. */
  function CloseAt(s: string): (k: nat)
    ensures k <= |s| && NoClose(s[..k])
    ensures k < |s| ==> k + 1 < |s| && s[k] == '*' && s[k + 1] == '/' && NoClose(s[..k] + "*")
  {
    if s == "" || Starts(s, '*', '/') then 0 else
      var k := 1 + CloseAt(s[1..]);
      assert s[..k] == [s[0]] + s[1..][..k - 1];
      assert k < |s| ==> s[..k] + "*" == [s[0]] + (s[1..][..k - 1] + "*");
      k
  }

  /** Offset of the quote that closes a literal, or |s|. */
  function QuoteAt(s: string, q: char): (k: nat)
    requires q != '\\'
    ensures k <= |s| && Body(s[..k], q, k == |s|)
    ensures k < |s| ==> s[k] == q
  {
    if s == "" || s[0] == q then 0
    else if s == "\\" then 1
    else
      var n := if s[0] == '\\' then 2 else 1;
      var k := n + QuoteAt(s[n..], q);
      assert s[..k][n..] == s[n..][..k - n];
      k
  }

  function FirstLine(s: string): (p: Piece)
    requires Starts(s, '/', '/')
    ensures PieceText(p) <= s && PieceOk(p, s[|PieceText(p)|..])
  {
    var k := IndexOf(s[2..], '\n');
    LineComment(s[2..][..k])
  }

  function FirstBlock(s: string): (p: Piece)
    requires Starts(s, '/', '*')
    ensures PieceText(p) <= s && PieceOk(p, s[|PieceText(p)|..])
  {
    var t := s[2..];
    var k := CloseAt(t);
    if k < |t| then
      assert t == t[..k] + "*/" + t[k + 2..];
      BlockComment(t[..k])
    else
      assert t[..k] == t;
      OpenComment(t)
  }

  function FirstLiteral(s: string): (p: Piece)
    requires s != "" && IsQuote(s[0])
    ensures PieceText(p) <= s && PieceOk(p, s[|PieceText(p)|..])
  {
    var t := s[1..];
    var k := QuoteAt(t, s[0]);
    assert s == [s[0]] + t;
    if k < |t| then
      assert s == [s[0]] + t[..k] + [s[0]] + t[k + 1..];
      Literal(s[0], t[..k])
    else
      assert t[..k] == t;
      OpenLiteral(s[0], t)
  }

  function FirstPiece(s: string): (p: Piece)
    requires s != ""
    ensures PieceText(p) <= s && PieceOk(p, s[|PieceText(p)|..])
  {
    if Starts(s, '/', '/') then FirstLine(s)
    else if Starts(s, '/', '*') then FirstBlock(s)
    else if IsQuote(s[0]) then FirstLiteral(s)
    else Plain(s[0])
  }

  function Pieces(s: string): (ps: seq<Piece>)
    ensures WellFormed(ps) && Render(ps) == s
    decreases |s|
  {
    if s == "" then [] else
      var p := FirstPiece(s);
      assert PieceText(p) != "";
      [p] + Pieces(s[|PieceText(p)|..])
  }

  /** On every source, the result is the source without its comment pieces. */
  lemma StripRemovesComments(s: string)
    ensures WellFormed(Pieces(s)) && Render(Pieces(s)) == s
    ensures Strip(Code, s) == Render(Kept(Pieces(s)))
  {
    StripPieces(Pieces(s));
  }

  // ---------------------------------------------------------------------
  // Idempotence
  // ---------------------------------------------------------------------

  /** The state in which what is emitted from st will be read again. */
  function Again(st: State): State {
    if st.Quoted? then st else Code
  }

  /** Stripping what was emitted emits it again: removing a comment never puts
      two characters together that open another one. */
  lemma {:induction false} StripTwice(st: State, s: string)
    requires st.Quoted? ==> IsQuote(st.q)
    ensures Strip(Again(st), Strip(st, s)) == Strip(st, s)
    decreases |s|
  {
    if s != "" {
      var t := Strip(st, s);
      match st
      case Code =>
        if Starts(s, '/', '/') {
          StripTwice(Line, s[2..]);
        } else if Starts(s, '/', '*') {
          StripTwice(Block, s[2..]);
        } else {
          var st' := if IsQuote(s[0]) then Quoted(s[0]) else Code;
          StripTwice(st', s[1..]);
          assert t[1..] == Strip(st', s[1..]);
          if s[0] == '/' && |s| > 1 {
            assert t[1] == s[1];
          }
        }
      case Line =>
        StripTwice(if s[0] == '\n' then Code else Line, s[1..]);
        if s[0] == '\n' {
          assert t[1..] == Strip(Code, s[1..]);
        }
      case Block =>
        if Starts(s, '*', '/') {
          StripTwice(Code, s[2..]);
        } else {
          StripTwice(Block, s[1..]);
        }
      case Quoted(q) =>
        if s[0] == '\\' {
          if |s| > 1 {
            StripTwice(st, s[2..]);
            assert t[2..] == Strip(st, s[2..]) && t[..2] == s[..2];
          }
        } else {
          var st' := if s[0] == q then Code else st;
          StripTwice(st', s[1..]);
          assert t[1..] == Strip(st', s[1..]);
        }
    }
  }

  lemma StripIdempotent(source: string)
    ensures Strip(Code, Strip(Code, source)) == Strip(Code, source)
  {
    StripTwice(Code, source);
  }
}
