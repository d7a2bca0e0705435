/** Least sets closed under propagation rules: the shared theory behind the
    in-place fixpoint loops of the path-identity gate. A rule adds its target
    whenever its premise holds of the names collected so far. */
module Propagation {

  function Fire<R>(holds: (R, set<string>) -> bool, target: R -> string, r: R, s: set<string>): set<string> {
    if holds(r, s) then s + {target(r)} else s
  }

  /** One in-place pass: later rules already see what earlier ones added. */
  function Sweep<R>(holds: (R, set<string>) -> bool, target: R -> string, rules: seq<R>, s: set<string>): set<string> {
    if rules == [] then s else Sweep(holds, target, rules[1..], Fire(holds, target, rules[0], s))
  }

  ghost predicate Monotone<R(!new)>(holds: (R, set<string>) -> bool) {
    forall r, s: set<string>, t: set<string> :: s <= t && holds(r, s) ==> holds(r, t)
  }

  ghost predicate Closed<R>(holds: (R, set<string>) -> bool, target: R -> string, rules: seq<R>, s: set<string>) {
    forall i :: 0 <= i < |rules| && holds(rules[i], s) ==> target(rules[i]) in s
  }

  /** s is the least set that contains the seed and is closed under the rules. */
  ghost predicate IsLeast<R>(holds: (R, set<string>) -> bool, target: R -> string, rules: seq<R>,
                             seed: set<string>, s: set<string>)
  {
    && seed <= s && Closed(holds, target, rules, s)
    && forall t: set<string> :: seed <= t && Closed(holds, target, rules, t) ==> s <= t
  }

  lemma SweepNone<R>(holds: (R, set<string>) -> bool, target: R -> string, s: set<string>)
    ensures Sweep(holds, target, [], s) == s
  {
  }

  lemma SweepOne<R>(holds: (R, set<string>) -> bool, target: R -> string, r: R, s: set<string>)
    ensures Sweep(holds, target, [r], s) == Fire(holds, target, r, s)
  {
    var rules := [r];
    assert rules[1..] == [];
    assert Sweep(holds, target, rules, s) == Sweep(holds, target, rules[1..], Fire(holds, target, rules[0], s));
  }

  lemma {:induction false} SweepConcat<R>(holds: (R, set<string>) -> bool, target: R -> string,
                                          a: seq<R>, b: seq<R>, s: set<string>)
    ensures Sweep(holds, target, a + b, s) == Sweep(holds, target, b, Sweep(holds, target, a, s))
    decreases |a|
  {
    if a == [] {
      assert a + b == b;
    } else {
      assert (a + b)[1..] == a[1..] + b;
      SweepConcat(holds, target, a[1..], b, Fire(holds, target, a[0], s));
    }
  }

  lemma {:induction false} SweepGrows<R>(holds: (R, set<string>) -> bool, target: R -> string,
                                         rules: seq<R>, s: set<string>)
    ensures s <= Sweep(holds, target, rules, s)
    decreases |rules|
  {
    if rules != [] {
      SweepGrows(holds, target, rules[1..], Fire(holds, target, rules[0], s));
    }
  }

  function Targets<R>(target: R -> string, rules: seq<R>): set<string> {
    set i | 0 <= i < |rules| :: target(rules[i])
  }

  lemma {:induction false} SweepBounded<R>(holds: (R, set<string>) -> bool, target: R -> string,
                                           rules: seq<R>, s: set<string>, bound: set<string>)
    requires s <= bound && Targets(target, rules) <= bound
    ensures Sweep(holds, target, rules, s) <= bound
    decreases |rules|
  {
    if rules != [] {
      assert target(rules[0]) in Targets(target, rules);
      forall x | x in Targets(target, rules[1..])
        ensures x in Targets(target, rules)
      {
        var i :| 0 <= i < |rules[1..]| && target(rules[1..][i]) == x;
        assert target(rules[i + 1]) == x;
      }
      SweepBounded(holds, target, rules[1..], Fire(holds, target, rules[0], s), bound);
    }
  }

  /** A pass that adds nothing leaves a closed set. */
  lemma {:induction false} StableIsClosed<R>(holds: (R, set<string>) -> bool, target: R -> string,
                                             rules: seq<R>, s: set<string>)
    requires Sweep(holds, target, rules, s) == s
    ensures Closed(holds, target, rules, s)
    decreases |rules|
  {
    if rules != [] {
      var s' := Fire(holds, target, rules[0], s);
      SweepGrows(holds, target, rules[1..], s');
      assert s' == s;
      StableIsClosed(holds, target, rules[1..], s);
      forall i | 0 <= i < |rules| && holds(rules[i], s)
        ensures target(rules[i]) in s
      {
        if i > 0 {
          assert rules[1..][i - 1] == rules[i];
        }
      }
    }
  }

  /** No pass leaves a closed set that contains its start. */
  lemma {:induction false} SweepStaysInside<R(!new)>(holds: (R, set<string>) -> bool, target: R -> string,
                                                     rules: seq<R>, s: set<string>, t: set<string>)
    requires Monotone(holds) && s <= t && Closed(holds, target, rules, t)
    ensures Sweep(holds, target, rules, s) <= t
    decreases |rules|
  {
    if rules != [] {
      assert holds(rules[0], s) ==> holds(rules[0], t);
      forall i | 0 <= i < |rules[1..]| && holds(rules[1..][i], t)
        ensures target(rules[1..][i]) in t
      {
        assert rules[1..][i] == rules[i + 1];
      }
      SweepStaysInside(holds, target, rules[1..], Fire(holds, target, rules[0], s), t);
    }
  }

  /** The least set depends on which rules there are, not on their order or
      number, so neither traversal order nor use before assignment matters. */
  lemma OrderIrrelevant<R>(holds: (R, set<string>) -> bool, target: R -> string, a: seq<R>, b: seq<R>,
                           seed: set<string>, s: set<string>, t: set<string>)
    requires forall r :: r in a <==> r in b
    requires IsLeast(holds, target, a, seed, s) && IsLeast(holds, target, b, seed, t)
    ensures s == t
  {
    forall u: set<string>
      ensures Closed(holds, target, a, u) <==> Closed(holds, target, b, u)
    {
      ClosedSubset(holds, target, a, b, u);
      ClosedSubset(holds, target, b, a, u);
    }
  }

  lemma ClosedSubset<R>(holds: (R, set<string>) -> bool, target: R -> string, a: seq<R>, b: seq<R>, u: set<string>)
    requires forall r :: r in a ==> r in b
    ensures Closed(holds, target, b, u) ==> Closed(holds, target, a, u)
  {
    if Closed(holds, target, b, u) {
      forall i | 0 <= i < |a| && holds(a[i], u)
        ensures target(a[i]) in u
      {
        assert a[i] in a;
        var j :| 0 <= j < |b| && b[j] == a[i];
        assert holds(b[j], u);
      }
    }
  }

  lemma SubsetSize(s: set<string>, t: set<string>)
    requires s <= t
    ensures |s| <= |t| && (|s| == |t| ==> s == t)
  {
    assert t == s + (t - s);
    assert |t| == |s| + |t - s|;
    if |s| == |t| {
      assert t - s == {};
    }
  }
}
