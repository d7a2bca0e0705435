/** Text helpers shared by the gate models: optional values, JavaScript
    white space and trimming, and positional numerals in a small base. */
module Text {

  datatype Option<+T> = None | Some(value: T)

  /** The characters removed by String.prototype.trim. */
  predicate IsSpace(c: char) {
    || '\t' <= c <= '\r' || c == ' ' || c == '\U{00A0}' || c == '\U{1680}'
    || '\U{2000}' <= c <= '\U{200A}' || c == '\U{2028}' || c == '\U{2029}'
    || c == '\U{202F}' || c == '\U{205F}' || c == '\U{3000}' || c == '\U{FEFF}'
  }

  /** White space and line terminators of ECMAScript, by code point. */
  lemma SpaceMeaning(c: char)
    ensures IsSpace(c) <==> c as int in {
      0x9, 0xA, 0xB, 0xC, 0xD, 0x20, 0xA0, 0x1680, 0x2000, 0x2001, 0x2002, 0x2003, 0x2004, 0x2005, 0x2006, 0x2007,
      0x2008, 0x2009, 0x200A, 0x2028, 0x2029, 0x202F, 0x205F, 0x3000, 0xFEFF }
  {
  }

  function TrimStart(s: string): (r: string)
    ensures |r| <= |s| && r == s[|s| - |r|..]
    ensures r != "" ==> !IsSpace(r[0])
  {
    if s != "" && IsSpace(s[0]) then TrimStart(s[1..]) else s
  }

  function TrimEnd(s: string): (r: string)
    ensures |r| <= |s| && r == s[..|r|]
    ensures r != "" ==> !IsSpace(r[|r| - 1])
    ensures s != "" && !IsSpace(s[0]) ==> r != ""
  {
    if s != "" && IsSpace(s[|s| - 1]) then TrimEnd(s[..|s| - 1]) else s
  }

  function Trim(s: string): (r: string)
    ensures r != "" ==> !IsSpace(r[0]) && !IsSpace(r[|r| - 1])
  {
    TrimEnd(TrimStart(s))
  }

  /** Text with a non-space character at either end is left alone by Trim. */
  predicate Trimmed(s: string) {
    s != "" ==> !IsSpace(s[0]) && !IsSpace(s[|s| - 1])
  }

  predicate AllSpace(s: string) {
    forall i :: 0 <= i < |s| ==> IsSpace(s[i])
  }

  lemma {:induction false} TrimStartFront(s: string)
    ensures forall i :: 0 <= i < |s| - |TrimStart(s)| ==> IsSpace(s[i])
  {
    hide IsSpace;
    if s != "" && IsSpace(s[0]) {
      TrimStartFront(s[1..]);
      assert forall i :: 0 < i < |s| ==> s[i] == s[1..][i - 1];
    }
  }

  lemma TrimStartSplits(s: string) returns (front: string)
    ensures s == front + TrimStart(s) && AllSpace(front)
  {
    hide TrimStart, IsSpace;
    TrimStartFront(s);
    front := s[..|s| - |TrimStart(s)|];
  }

  lemma {:induction false} TrimEndSplits(s: string) returns (back: string)
    ensures s == TrimEnd(s) + back && AllSpace(back)
  {
    hide IsSpace;
    if s != "" && IsSpace(s[|s| - 1]) {
      var n := |s| - 1;
      var rest := TrimEndSplits(s[..n]);
      back := rest + [s[n]];
      assert s == s[..n] + [s[n]];
      assert TrimEnd(s) == TrimEnd(s[..n]);
      hide TrimEnd;
      assert TrimEnd(s) + rest + [s[n]] == TrimEnd(s) + back;
    } else {
      back := "";
    }
  }

  /** Trimming takes white space off both ends, all of it and nothing else. */
  lemma TrimMeaning(s: string) returns (front: string, back: string)
    ensures s == front + Trim(s) + back && AllSpace(front) && AllSpace(back) && Trimmed(Trim(s))
  {
    hide TrimStart, TrimEnd, IsSpace, AllSpace;
    front := TrimStartSplits(s);
    back := TrimEndSplits(TrimStart(s));
    assert front + (Trim(s) + back) == front + Trim(s) + back;
  }

  /** Index of the first c in s, or |s|. */
  function IndexOf(s: string, c: char): (k: nat)
    ensures k <= |s| && c !in s[..k]
    ensures k < |s| ==> s[k] == c
    ensures k < |s| <==> c in s
  {
    if s == "" || s[0] == c then 0 else
      var k := 1 + IndexOf(s[1..], c);
      assert s[..k] == [s[0]] + s[1..][..k - 1];
      k
  }

  lemma IndexOfAt(s: string, c: char, k: nat)
    requires k < |s| && s[k] == c && c !in s[..k]
    ensures IndexOf(s, c) == k
  {
  }

  /** Index of the last c in s, or -1. */
  function LastIndexOf(s: string, c: char): (k: int)
    ensures -1 <= k < |s|
  {
    if s == "" then -1
    else if s[|s| - 1] == c then |s| - 1
    else LastIndexOf(s[..|s| - 1], c)
  }

  // ---------------------------------------------------------------------
  // Splitting and joining
  // ---------------------------------------------------------------------

  function Split(s: string, sep: char): (parts: seq<string>)
    ensures parts != [] && forall i :: 0 <= i < |parts| ==> sep !in parts[i]
  {
    if s == "" then [""]
    else
      var rest := Split(s[1..], sep);
      if s[0] == sep then [""] + rest else [[s[0]] + rest[0]] + rest[1..]
  }

  function Join(parts: seq<string>, sep: char): string {
    if parts == [] then ""
    else if |parts| == 1 then parts[0]
    else parts[0] + [sep] + Join(parts[1..], sep)
  }

  lemma {:induction false} SplitFirst(a: string, rest: string, sep: char)
    requires sep !in a
    ensures Split(a + [sep] + rest, sep) == [a] + Split(rest, sep)
  {
    var s := a + [sep] + rest;
    if a == "" {
      assert s[1..] == rest;
    } else {
      assert s[1..] == a[1..] + [sep] + rest;
      SplitFirst(a[1..], rest, sep);
      assert [a[0]] + a[1..] == a;
      assert Split(s[1..], sep)[1..] == Split(rest, sep);
    }
  }

  lemma {:induction false} SplitConcat(a: string, b: string, sep: char)
    ensures Split(a + [sep] + b, sep) == Split(a, sep) + Split(b, sep)
    decreases |a|
  {
    hide Split;
    var k := IndexOf(a, sep);
    var head := a[..k];
    hide IndexOf;
    if k == |a| {
      assert head == a;
      SplitFirst(a, b, sep);
      SplitOne(a, sep);
    } else {
      var tail := a[k + 1..];
      assert a == head + [sep] + tail;
      assert a + [sep] + b == head + [sep] + (tail + [sep] + b);
      SplitFirst(head, tail + [sep] + b, sep);
      SplitFirst(head, tail, sep);
      SplitConcat(tail, b, sep);
      assert [head] + (Split(tail, sep) + Split(b, sep)) == [head] + Split(tail, sep) + Split(b, sep);
    }
  }

  lemma SplitHead(s: string, sep: char)
    ensures Split(s, sep)[0] == s[..IndexOf(s, sep)]
  {
    var k := IndexOf(s, sep);
    if k == |s| {
      assert s[..k] == s;
      SplitOne(s, sep);
    } else {
      assert s == s[..k] + [sep] + s[k + 1..];
      SplitFirst(s[..k], s[k + 1..], sep);
    }
  }

  lemma {:induction false} SplitOne(a: string, sep: char)
    requires sep !in a
    ensures Split(a, sep) == [a]
  {
    if a != "" {
      SplitOne(a[1..], sep);
      assert [a[0]] + a[1..] == a;
    }
  }

  lemma {:induction false} SplitJoin(parts: seq<string>, sep: char)
    requires parts != [] && forall i :: 0 <= i < |parts| ==> sep !in parts[i]
    ensures Split(Join(parts, sep), sep) == parts
  {
    if |parts| == 1 {
      SplitOne(parts[0], sep);
    } else {
      SplitFirst(parts[0], Join(parts[1..], sep), sep);
      SplitJoin(parts[1..], sep);
    }
  }

  /** Joining what was split gives the text back. */
  lemma {:induction false} JoinSplit(s: string, sep: char)
    ensures Join(Split(s, sep), sep) == s
  {
    if s != "" {
      var parts, rest := Split(s, sep), Split(s[1..], sep);
      JoinSplit(s[1..], sep);
      if s[0] == sep {
        assert parts[1..] == rest;
        assert s == "" + [sep] + s[1..];
      } else {
        assert parts[1..] == rest[1..];
        assert [s[0]] + (rest[0] + [sep] + Join(rest[1..], sep)) == [s[0]] + rest[0] + [sep] + Join(rest[1..], sep);
        assert s == [s[0]] + s[1..];
      }
    }
  }

  // ---------------------------------------------------------------------
  // Numerals
  // ---------------------------------------------------------------------

  type base = b: int | 2 <= b <= 10 witness 10

  predicate IsDigit(c: char, b: base) {
    '0' <= c && (c as int) - ('0' as int) < b
  }

  lemma DigitMeaning(c: char)
    ensures IsDigit(c, 10) <==> c in "0123456789"
    ensures IsDigit(c, 8) <==> c in "01234567"
  {
  }

  predicate Digits(s: string, b: base) {
    forall i :: 0 <= i < |s| ==> IsDigit(s[i], b)
  }

  /** The number that a digit string denotes, most significant digit first. */
  function Value(s: string, b: base): nat
    requires Digits(s, b)
  {
    if s == "" then 0
    else Value(s[..|s| - 1], b) * b + (s[|s| - 1] as int - '0' as int)
  }

  /** The longest digit prefix, which is all that parseInt looks at. */
  function TakeDigits(s: string, b: base): (r: string)
    ensures r <= s && Digits(r, b)
    ensures |r| < |s| ==> !IsDigit(s[|r|], b)
  {
    if s != "" && IsDigit(s[0], b) then [s[0]] + TakeDigits(s[1..], b) else ""
  }

  /** The shortest numeral of n in base b. */
  function Numeral(n: nat, b: base): (s: string)
    ensures s != "" && Digits(s, b)
    decreases n
  {
    if n < b then [('0' as int + n) as char]
    else
      Quotient(n, b);
      Numeral(n / b, b) + [('0' as int + n % b) as char]
  }

  lemma Quotient(n: nat, b: base)
    requires n >= b
    ensures 0 < n / b < n
    ensures n == (n / b) * b + n % b && 0 <= n % b < b
  {
    assert n == (n / b) * b + n % b;
    assert (n / b) * b >= (n / b) * 2;
  }

  lemma {:induction false} NumeralValue(n: nat, b: base)
    ensures Value(Numeral(n, b), b) == n
    decreases n
  {
    if n >= b {
      Quotient(n, b);
      NumeralValue(n / b, b);
      var s := Numeral(n, b);
      assert s[..|s| - 1] == Numeral(n / b, b);
    } else {
      var s := Numeral(n, b);
      assert s[..0] == "";
      assert Value(s[..0], b) == 0;
    }
  }

  lemma {:induction false} TakeDigitsExact(s: string, rest: string, b: base)
    requires Digits(s, b) && (rest != "" ==> !IsDigit(rest[0], b))
    ensures TakeDigits(s + rest, b) == s
  {
    if s == "" {
      assert s + rest == rest;
    } else {
      assert (s + rest)[1..] == s[1..] + rest;
      TakeDigitsExact(s[1..], rest, b);
    }
  }

  lemma TrimmedStays(s: string)
    requires Trimmed(s)
    ensures Trim(s) == s
  {
  }
}
