/** Canonical citation paths of the config-consumption gate: `.` and `..`
    resolved on a stack, with a climb above the root refused. */
module CitationPath {
  import opened Text

  function Slashes(s: string): (r: string)
    ensures |r| == |s| && '\\' !in r
  {
    seq(|s|, i requires 0 <= i < |s| => if s[i] == '\\' then '/' else s[i])
  }

  predicate IsName(part: string) {
    part != "" && part != "." && part != ".."
  }

  /** The gate's rule: a name is pushed, `..` pops, None above the root. */
  function Resolve(parts: seq<string>): Option<seq<string>> {
    if parts == [] then Some([]) else
      var out := Resolve(parts[..|parts| - 1]);
      var part := parts[|parts| - 1];
      if out.None? then None
      else if part == "" || part == "." then out
      else if part == ".." then (if out.value == [] then None else Some(out.value[..|out.value| - 1]))
      else Some(out.value + [part])
  }

  function Canonical(file: string): Option<string> {
    var out := Resolve(Split(Slashes(file), '/'));
    if out.None? then None else Some(Join(out.value, '/'))
  }

  lemma {:induction false} ResolveStops(parts: seq<string>, k: nat)
    requires k <= |parts| && Resolve(parts[..k]).None?
    ensures Resolve(parts).None?
  {
    if k < |parts| {
      assert parts[..|parts| - 1][..k] == parts[..k];
      ResolveStops(parts[..|parts| - 1], k);
    } else {
      assert parts[..k] == parts;
    }
  }

  method Canonicalize(file: string) returns (r: Option<string>)
    ensures r == Canonical(file)
  {
    var parts := Split(Slashes(file), '/');
    var out: seq<string> := [];
    for i := 0 to |parts|
      invariant Resolve(parts[..i]) == Some(out)
    {
      var part := parts[i];
      assert parts[..i + 1][..i] == parts[..i];
      if part == "" || part == "." {
        continue;
      }
      if part == ".." {
        if |out| > 0 {
          out := out[..|out| - 1];
          continue;
        }
        ResolveStops(parts, i + 1);
        return None;
      }
      out := out + [part];
    }
    assert parts[..|parts|] == parts;
    return Some(Join(out, '/'));
  }

  // ---------------------------------------------------------------------
  // What the rule means
  // ---------------------------------------------------------------------

  /** Names entered minus levels climbed. */
  function Depth(parts: seq<string>): int {
    if parts == [] then 0 else
      var part := parts[|parts| - 1];
      Depth(parts[..|parts| - 1]) + if part == ".." then -1 else if IsName(part) then 1 else 0
  }

  /** Right-to-left reading: each `..` cancels the nearest uncancelled name to
      its left, and what is left over is the path. */
  function Survivors(parts: seq<string>, climbs: nat): seq<string> {
    if parts == [] then [] else
      var part, init := parts[|parts| - 1], parts[..|parts| - 1];
      if part == ".." then Survivors(init, climbs + 1)
      else if !IsName(part) then Survivors(init, climbs)
      else if climbs > 0 then Survivors(init, climbs - 1)
      else Survivors(init, 0) + [part]
  }

  lemma {:induction false} ResolveDepth(parts: seq<string>)
    ensures Resolve(parts).Some? ==> |Resolve(parts).value| == Depth(parts)
  {
    if parts != [] {
      ResolveDepth(parts[..|parts| - 1]);
    }
  }

  /** Refused exactly when some prefix climbs above the root. */
  lemma {:induction false} RefusedIffClimbs(parts: seq<string>)
    ensures Resolve(parts).None? <==> exists k :: 0 <= k <= |parts| && Depth(parts[..k]) < 0
  {
    if parts != [] {
      var init := parts[..|parts| - 1];
      RefusedIffClimbs(init);
      ResolveDepth(init);
      assert parts[..|parts|] == parts;
      if Resolve(init).None? {
        var k :| 0 <= k <= |init| && Depth(init[..k]) < 0;
        assert parts[..k] == init[..k];
      } else {
        forall k | 0 <= k < |parts|
          ensures Depth(parts[..k]) >= 0
        {
          assert parts[..k] == init[..k];
        }
        assert Resolve(parts).None? ==> Depth(parts[..|parts|]) < 0;
        ResolveDepth(parts);
      }
    }
  }

  /** The stack holds what the right-to-left reading leaves over. */
  lemma {:induction false} ResolveSurvivors(parts: seq<string>, climbs: nat)
    requires Resolve(parts).Some? && climbs <= |Resolve(parts).value|
    ensures Survivors(parts, climbs) == Resolve(parts).value[..|Resolve(parts).value| - climbs]
  {
    if parts != [] {
      var part, init := parts[|parts| - 1], parts[..|parts| - 1];
      var before, after := Resolve(init).value, Resolve(parts).value;
      if part == ".." {
        ResolveSurvivors(init, climbs + 1);
        assert after[..|after| - climbs] == before[..|before| - (climbs + 1)];
      } else if !IsName(part) {
        ResolveSurvivors(init, climbs);
      } else if climbs > 0 {
        ResolveSurvivors(init, climbs - 1);
        assert after[..|after| - climbs] == before[..|before| - (climbs - 1)];
      } else {
        ResolveSurvivors(init, 0);
        assert before[..|before|] == before && after[..|after|] == after;
      }
    }
  }

  ghost predicate Clean(out: seq<string>) {
    forall i :: 0 <= i < |out| ==> IsName(out[i]) && '/' !in out[i] && '\\' !in out[i]
  }

  lemma {:induction false} ResolveClean(parts: seq<string>)
    requires forall i :: 0 <= i < |parts| ==> '/' !in parts[i] && '\\' !in parts[i]
    requires Resolve(parts).Some?
    ensures Clean(Resolve(parts).value)
  {
    if parts != [] {
      ResolveClean(parts[..|parts| - 1]);
    }
  }

  lemma {:induction false} ResolveNames(out: seq<string>)
    requires Clean(out)
    ensures Resolve(out) == Some(out)
  {
    if out != [] {
      ResolveNames(out[..|out| - 1]);
      assert IsName(out[|out| - 1]);
      assert out[..|out| - 1] + [out[|out| - 1]] == out;
    }
  }

  lemma {:induction false} SplitKeepsOut(s: string, sep: char, c: char)
    requires c !in s
    ensures forall i :: 0 <= i < |Split(s, sep)| ==> c !in Split(s, sep)[i]
  {
    if s != "" {
      assert forall d :: d in s[1..] ==> d in s;
      SplitKeepsOut(s[1..], sep, c);
    }
  }

  lemma {:induction false} JoinNoBackslash(out: seq<string>)
    requires Clean(out)
    ensures '\\' !in Join(out, '/')
  {
    if out != [] {
      assert '\\' !in out[0];
      JoinNoBackslash(out[1..]);
    }
  }

  lemma SlashesStays(s: string)
    requires '\\' !in s
    ensures Slashes(s) == s
  {
  }

  /** A canonical path is made of proper names and is its own canonical form. */
  lemma CanonicalFixedPoint(file: string)
    requires Canonical(file).Some?
    ensures Canonical(Canonical(file).value) == Canonical(file)
    ensures exists out :: Clean(out) && Canonical(file).value == Join(out, '/')
  {
    var parts := Split(Slashes(file), '/');
    SplitKeepsOut(Slashes(file), '/', '\\');
    ResolveClean(parts);
    var out := Resolve(parts).value;
    var s := Join(out, '/');
    JoinNoBackslash(out);
    SlashesStays(s);
    if out == [] {
      assert Split(s, '/') == [""];
      assert [""][..0] == [];
      assert Resolve([""]) == Resolve([]);
    } else {
      SplitJoin(out, '/');
      ResolveNames(out);
    }
  }

  // ---------------------------------------------------------------------
  // Paths as segments
  // ---------------------------------------------------------------------

  /** The segments with separators of either kind between them. */
  function Written(parts: seq<string>, seps: seq<char>): string
    requires |parts| == |seps| + 1
  {
    if seps == [] then parts[0] else parts[0] + [seps[0]] + Written(parts[1..], seps[1..])
  }

  ghost predicate Segments(parts: seq<string>, seps: seq<char>) {
    && |parts| == |seps| + 1
    && (forall i :: 0 <= i < |parts| ==> '/' !in parts[i] && '\\' !in parts[i])
    && (forall i :: 0 <= i < |seps| ==> seps[i] == '/' || seps[i] == '\\')
  }

  lemma {:induction false} WrittenSplits(parts: seq<string>, seps: seq<char>)
    requires Segments(parts, seps)
    ensures Split(Slashes(Written(parts, seps)), '/') == parts
    decreases |seps|
  {
    if seps == [] {
      SlashesStays(parts[0]);
      SplitOne(parts[0], '/');
      assert parts == [parts[0]];
    } else {
      var rest := Written(parts[1..], seps[1..]);
      WrittenSplits(parts[1..], seps[1..]);
      assert Slashes(Written(parts, seps)) == parts[0] + "/" + Slashes(rest);
      SplitFirst(parts[0], Slashes(rest), '/');
    }
  }

  /** Every path, written with slashes or backslashes: refused exactly when a
      prefix climbs above the root, and otherwise the surviving names. */
  lemma CanonicalMeaning(parts: seq<string>, seps: seq<char>)
    requires Segments(parts, seps)
    ensures var c := Canonical(Written(parts, seps));
      && (c == None <==> exists k :: 0 <= k <= |parts| && Depth(parts[..k]) < 0)
      && (c.Some? ==> c == Some(Join(Survivors(parts, 0), '/')))
  {
    hide Slashes, Split, Depth, Survivors, Join;
    WrittenSplits(parts, seps);
    RefusedIffClimbs(parts);
    if Resolve(parts).Some? {
      ResolveSurvivors(parts, 0);
      var out := Resolve(parts).value;
      assert out[..|out| - 0] == out;
    }
  }

  lemma {:induction false} EveryPathIsWritten(file: string) returns (parts: seq<string>, seps: seq<char>)
    ensures Segments(parts, seps) && Written(parts, seps) == file
  {
    if file == "" {
      parts, seps := [""], [];
    } else {
      parts, seps := EveryPathIsWritten(file[1..]);
      assert file == [file[0]] + file[1..];
      if file[0] == '/' || file[0] == '\\' {
        var parts', seps' := [""] + parts, [file[0]] + seps;
        assert parts'[1..] == parts && seps'[1..] == seps;
        parts, seps := parts', seps';
      } else {
        var parts' := [[file[0]] + parts[0]] + parts[1..];
        assert parts'[1..] == parts[1..];
        parts := parts';
      }
    }
  }
}
