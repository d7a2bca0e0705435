/** Which expressions of one function hold a raw path.resolve result of a
    project root: the taint loop of the path-identity gate. */
module RootTaint {
  import opened Text
  import opened Syntax
  import opened Propagation

  /** What the gate knows before it looks at a scope: the names of
      path.resolve, its three name and receiver patterns, and the identifier
      parameters of the scope (none outside a function). */
  datatype Env = Env(
    resolveNames: set<string>,
    rootName: string -> bool,
    directRootName: string -> bool,
    projectScoped: string -> bool,
    params: set<string>)

  const PATH_TRANSFORMS := {"normalize", "toLowerCase", "toUpperCase", "replace"}

  function IdentityName(n: Node): string {
    if n.Ident? || n.Prop? then n.name else ""
  }

  /** `a`, `a.b` and `a['b']` are tracked under dotted keys. */
  function TaintKey(n: Node): Option<string> {
    match n
    case Ident(name) => Some(name)
    case Prop(_, base, name) => Dotted(TaintKey(base), Some(name))
    case Elem(_, base, literal, _) => Dotted(TaintKey(base), literal)
    case _ => None
  }

  function Dotted(base: Option<string>, name: Option<string>): Option<string> {
    if base.Some? && base.value != "" && name.Some? then Some(base.value + "." + name.value) else None
  }

  predicate IsResolveCall(env: Env, n: Node) {
    n.Call? &&
    if n.callee.Ident? then n.callee.name in env.resolveNames
    else n.callee.Prop? && n.callee.name == "resolve" && TextOf(n.callee.base) + ".resolve" in env.resolveNames
  }

  predicate LooksLikeRoot(env: Env, n: Node)
    requires n.Call?
  {
    |n.args| == 1 && env.rootName(IdentityName(n.args[0]))
  }

  predicate ContainsRootResolve(env: Env, n: Node) {
    (IsResolveCall(env, n) && LooksLikeRoot(env, n))
    || exists i :: 0 <= i < |Children(n)| && ContainsRootResolve(env, Children(n)[i])
  }

  predicate IsRootKey(env: Env, n: Node, tainted: set<string>) {
    if TaintKey(n).Some? && TaintKey(n).value != "" && TaintKey(n).value in tainted then true
    else if IsResolveCall(env, n) then LooksLikeRoot(env, n)
    else
      match n
      case Wrap(_, inner) => IsRootKey(env, inner, tainted)
      case Cond(_, _, whenTrue, whenFalse) => IsRootKey(env, whenTrue, tainted) || IsRootKey(env, whenFalse, tainted)
      case Call(_, Prop(_, base, name), args) =>
        name in PATH_TRANSFORMS
        && (IsRootKey(env, base, tainted) || exists i :: 0 <= i < |args| && IsRootKey(env, args[i], tainted))
      case _ => false
  }

  predicate IsDirectRootParameter(env: Env, n: Node) {
    match n
    case Ident(name) => env.directRootName(name) && name in env.params
    case Prop(_, base, name) => env.directRootName(name) && base.Ident? && base.name in env.params
    case _ => false
  }

  predicate IsProjectLookup(env: Env, n: Node, tainted: set<string>) {
    && n.Call? && n.callee.Prop? && n.callee.name == "get" && env.projectScoped(TextOf(n.callee.base))
    && exists i :: 0 <= i < |n.args| && (IsRootKey(env, n.args[i], tainted) || IsDirectRootParameter(env, n.args[i]))
  }

  predicate IsTainted(env: Env, n: Node, tainted: set<string>) {
    IsRootKey(env, n, tainted) || ContainsRootResolve(env, n) || IsProjectLookup(env, n, tainted)
  }

  // ---------------------------------------------------------------------
  // Taint rules
  // ---------------------------------------------------------------------

  /** `Flow`: the key is tainted when the expression is; `Copy`: when another key is. */
  datatype Rule = Flow(e: Node, to: string) | Copy(from: string, to: string)

  predicate Holds(env: Env, r: Rule, s: set<string>) {
    match r
    case Flow(e, _) => IsTainted(env, e, s)
    case Copy(from, _) => from in s
  }

  function HoldsIn(env: Env): (Rule, set<string>) -> bool {
    (r, s) => Holds(env, r, s)
  }

  function Target(r: Rule): string {
    r.to
  }

  lemma {:induction false} RootKeyMonotone(env: Env, n: Node, s: set<string>, t: set<string>)
    requires s <= t && IsRootKey(env, n, s)
    ensures IsRootKey(env, n, t)
    decreases n
  {
    if TaintKey(n).Some? && TaintKey(n).value != "" && TaintKey(n).value in t {
    } else if !IsResolveCall(env, n) {
      match n
      case Wrap(_, inner) => RootKeyMonotone(env, inner, s, t);
      case Cond(_, _, whenTrue, whenFalse) =>
        if IsRootKey(env, whenTrue, s) {
          RootKeyMonotone(env, whenTrue, s, t);
        } else {
          RootKeyMonotone(env, whenFalse, s, t);
        }
      case Call(_, Prop(_, base, name), args) =>
        if IsRootKey(env, base, s) {
          RootKeyMonotone(env, base, s, t);
        } else {
          var i :| 0 <= i < |args| && IsRootKey(env, args[i], s);
          RootKeyMonotone(env, args[i], s, t);
        }
      case _ =>
    }
  }

  lemma HoldsMonotone(env: Env)
    ensures Monotone(HoldsIn(env))
  {
    hide IsRootKey, ContainsRootResolve;
    forall r, s: set<string>, t: set<string> | s <= t && HoldsIn(env)(r, s)
      ensures HoldsIn(env)(r, t)
    {
      if r.Flow? {
        if IsRootKey(env, r.e, s) {
          RootKeyMonotone(env, r.e, s, t);
        } else if IsProjectLookup(env, r.e, s) {
          var i :| 0 <= i < |r.e.args| && (IsRootKey(env, r.e.args[i], s) || IsDirectRootParameter(env, r.e.args[i]));
          if IsRootKey(env, r.e.args[i], s) {
            RootKeyMonotone(env, r.e.args[i], s, t);
          }
          assert IsRootKey(env, r.e.args[i], t) || IsDirectRootParameter(env, r.e.args[i]);
        }
      }
    }
  }

  function PropertyRules(base: string, p: Property): seq<Rule>
    decreases p
  {
    match p
    case KeyValue(name, value) =>
      var key := base + "." + name;
      [Flow(value, key)] + if value.Object? then ObjectRules(key, value.properties) else []
    case Shorthand(name) => [Copy(name, base + "." + name)]
    case OtherProperty(_) => []
  }

  function ObjectRules(base: string, properties: seq<Property>): seq<Rule>
    decreases properties
  {
    if properties == [] then []
    else PropertyRules(base, properties[0]) + ObjectRules(base, properties[1..])
  }

  function OwnRules(n: Node): seq<Rule> {
    match n
    case VarDecl(_, Name(name), init) =>
      [Flow(init, name)] + if init.Object? then ObjectRules(name, init.properties) else []
    case Assign(_, left, right) =>
      if TaintKey(left).Some? && TaintKey(left).value != "" then [Flow(right, TaintKey(left).value)] else []
    case _ => []
  }

  /** The rules of a scope; a nested function is a scope of its own. */
  function Rules(n: Node, root: bool): seq<Rule>
    decreases n, |Children(n)| + 1
  {
    if n.Function? && !root then [] else OwnRules(n) + RulesFrom(n, 0)
  }

  function RulesFrom(n: Node, k: nat): seq<Rule>
    requires k <= |Children(n)|
    decreases n, |Children(n)| - k
  {
    if k == |Children(n)| then [] else Rules(Children(n)[k], false) + RulesFrom(n, k + 1)
  }

  ghost function SweepRules(env: Env, rules: seq<Rule>, s: set<string>): set<string> {
    Sweep(HoldsIn(env), Target, rules, s)
  }

  lemma SweepSplit(env: Env, a: seq<Rule>, b: seq<Rule>, s: set<string>)
    ensures SweepRules(env, a + b, s) == SweepRules(env, b, SweepRules(env, a, s))
  {
    SweepConcat(HoldsIn(env), Target, a, b, s);
  }

  lemma SweepSingle(env: Env, r: Rule, s: set<string>)
    ensures SweepRules(env, [r], s) == if Holds(env, r, s) then s + {r.to} else s
    ensures SweepRules(env, [], s) == s
  {
    hide Holds;
    SweepOne(HoldsIn(env), Target, r, s);
  }

  // ---------------------------------------------------------------------
  // The fixpoint loop
  // ---------------------------------------------------------------------

  class TaintScan {
    const env: Env
    var tainted: set<string>

    constructor (env: Env)
      ensures this.env == env && tainted == {}
    {
      this.env, tainted := env, {};
    }

    method CollectObject(base: string, properties: seq<Property>)
      modifies this
      ensures tainted == SweepRules(env, ObjectRules(base, properties), old(tainted))
      decreases properties
    {
      hide Holds, IsTainted, Sweep;
      SweepSingle(env, Copy("", ""), tainted);
      if properties != [] {
        SweepSplit(env, PropertyRules(base, properties[0]), ObjectRules(base, properties[1..]), tainted);
        CollectProperty(base, properties[0]);
        CollectObject(base, properties[1..]);
      }
    }

    method CollectProperty(base: string, p: Property)
      modifies this
      ensures tainted == SweepRules(env, PropertyRules(base, p), old(tainted))
      decreases p
    {
      hide IsTainted, Sweep;
      match p {
        case KeyValue(name, value) =>
          var key := base + "." + name;
          SweepSingle(env, Flow(value, key), tainted);
          SweepSplit(env, [Flow(value, key)], if value.Object? then ObjectRules(key, value.properties) else [], tainted);
          if IsTainted(env, value, tainted) {
            tainted := tainted + {key};
          }
          SweepSingle(env, Flow(value, key), tainted);
          if value.Object? {
            CollectObject(key, value.properties);
          }
        case Shorthand(name) =>
          SweepSingle(env, Copy(name, base + "." + name), tainted);
          if name in tainted {
            tainted := tainted + {base + "." + name};
          }
        case OtherProperty(_) =>
          SweepSingle(env, Copy("", ""), tainted);
      }
    }

    method CollectOwn(n: Node)
      modifies this
      ensures tainted == SweepRules(env, OwnRules(n), old(tainted))
    {
      hide IsTainted, Sweep;
      SweepSingle(env, Copy("", ""), tainted);
      if n.VarDecl? && n.pattern.Name? {
        var flow := Flow(n.init, n.pattern.name);
        SweepSingle(env, flow, tainted);
        SweepSplit(env, [flow], if n.init.Object? then ObjectRules(n.pattern.name, n.init.properties) else [], tainted);
        if IsTainted(env, n.init, tainted) {
          tainted := tainted + {n.pattern.name};
        }
        SweepSingle(env, flow, tainted);
        if n.init.Object? {
          CollectObject(n.pattern.name, n.init.properties);
        }
      } else if n.Assign? {
        var key := TaintKey(n.left);
        if key.Some? && key.value != "" {
          SweepSingle(env, Flow(n.right, key.value), tainted);
          if IsTainted(env, n.right, tainted) {
            tainted := tainted + {key.value};
          }
        }
      }
    }

    method Collect(n: Node, root: bool)
      modifies this
      ensures tainted == SweepRules(env, Rules(n, root), old(tainted))
      decreases n, 1
    {
      hide OwnRules, Children, Sweep;
      SweepSingle(env, Copy("", ""), tainted);
      if n.Function? && !root {
        return;
      }
      SweepSplit(env, OwnRules(n), RulesFrom(n, 0), tainted);
      CollectOwn(n);
      var children := Children(n);
      for k := 0 to |children|
        invariant SweepRules(env, Rules(n, root), old(tainted)) == SweepRules(env, RulesFrom(n, k), tainted)
      {
        SweepSplit(env, Rules(children[k], false), RulesFrom(n, k + 1), tainted);
        Collect(children[k], false);
      }
      SweepSingle(env, Copy("", ""), tainted);
    }
  }

  /** The tainted keys of a scope: the least set closed under its rules. */
  method ScopeTaint(env: Env, scope: Node) returns (tainted: set<string>)
    ensures IsLeast(HoldsIn(env), Target, Rules(scope, true), {}, tainted)
  {
    hide Rules, HoldsIn, Sweep;
    HoldsMonotone(env);
    var scan := new TaintScan(env);
    ghost var rules, holds := Rules(scope, true), HoldsIn(env);
    ghost var bound := Targets(Target, rules);
    var previousSize := -1;
    while previousSize != |scan.tainted|
      invariant scan.env == env && scan.tainted <= bound
      invariant forall t: set<string> :: Closed(holds, Target, rules, t) ==> scan.tainted <= t
      invariant previousSize <= |scan.tainted|
      invariant previousSize == |scan.tainted| ==> Closed(holds, Target, rules, scan.tainted)
      decreases |bound| - |scan.tainted|, previousSize != |scan.tainted|
    {
      ghost var before := scan.tainted;
      previousSize := |scan.tainted|;
      scan.Collect(scope, true);
      SweepGrows(holds, Target, rules, before);
      SweepBounded(holds, Target, rules, before, bound);
      SubsetSize(before, scan.tainted);
      SubsetSize(scan.tainted, bound);
      forall t: set<string> | Closed(holds, Target, rules, t)
        ensures scan.tainted <= t
      {
        SweepStaysInside(holds, Target, rules, before, t);
      }
      if |scan.tainted| == |before| {
        StableIsClosed(holds, Target, rules, before);
      }
    }
    tainted := scan.tainted;
  }

  /** Two scopes with the same rules, in whatever order the statements come,
      taint the same keys. */
  lemma TaintOrderIrrelevant(env: Env, a: Node, b: Node, s: set<string>, t: set<string>)
    requires forall r :: r in Rules(a, true) <==> r in Rules(b, true)
    requires IsLeast(HoldsIn(env), Target, Rules(a, true), {}, s)
    requires IsLeast(HoldsIn(env), Target, Rules(b, true), {}, t)
    ensures s == t
  {
    hide Rules, HoldsIn;
    OrderIrrelevant(HoldsIn(env), Target, Rules(a, true), Rules(b, true), {}, s, t);
  }

  lemma {:induction false} RuleOfChild(n: Node, k: nat, r: Rule)
    requires k <= |Children(n)|
    ensures r in RulesFrom(n, k) <==> exists j :: k <= j < |Children(n)| && r in Rules(Children(n)[j], false)
    decreases |Children(n)| - k
  {
    hide Rules, Children;
    if k < |Children(n)| {
      RuleOfChild(n, k + 1, r);
    }
  }

  /** A scope: a function's body, or the top level of a file. */
  predicate IsScope(n: Node) {
    n.Function? || n.Other?
  }

  function Statements(n: Node): seq<Node>
    requires IsScope(n)
  {
    if n.Function? then n.body else n.nodes
  }

  ghost predicate SomeRule(xs: seq<Node>, r: Rule) {
    exists j :: 0 <= j < |xs| && r in Rules(xs[j], false)
  }

  lemma RulesSplit(n: Node, root: bool, r: Rule)
    requires root || !n.Function?
    ensures r in Rules(n, root) <==> r in OwnRules(n) || SomeRule(Children(n), r)
  {
    hide Children, OwnRules;
    RuleOfChild(n, 0, r);
  }

  /** The rules of a scope, and of a block in it, are those of its statements. */
  lemma ScopeRules(scope: Node, root: bool, r: Rule)
    requires IsScope(scope) && (root || scope.Other?)
    ensures r in Rules(scope, root) <==> SomeRule(Statements(scope), r)
  {
    hide Rules, SomeRule;
    RulesSplit(scope, root, r);
    assert Children(scope) == Statements(scope) && OwnRules(scope) == [];
  }

  ghost predicate SameStatements(xs: seq<Node>, ys: seq<Node>) {
    forall n :: n in xs <==> n in ys
  }

  lemma SameStatementsSameRules(a: Node, b: Node, root: bool, r: Rule)
    requires IsScope(a) && IsScope(b) && (root || (a.Other? && b.Other?)) && SameStatements(Statements(a), Statements(b))
    ensures r in Rules(a, root) <==> r in Rules(b, root)
  {
    hide Rules;
    ScopeRules(a, root, r);
    ScopeRules(b, root, r);
    var xs, ys := Statements(a), Statements(b);
    if j :| 0 <= j < |xs| && r in Rules(xs[j], false) {
      assert xs[j] in ys;
    }
    if j :| 0 <= j < |ys| && r in Rules(ys[j], false) {
      assert ys[j] in xs;
    }
  }

  /** In particular the statements of a function or file may be reordered or
      repeated. */
  lemma StatementOrderIrrelevant(env: Env, a: Node, b: Node, s: set<string>, t: set<string>)
    requires IsScope(a) && IsScope(b) && SameStatements(Statements(a), Statements(b))
    requires IsLeast(HoldsIn(env), Target, Rules(a, true), {}, s)
    requires IsLeast(HoldsIn(env), Target, Rules(b, true), {}, t)
    ensures s == t
  {
    hide HoldsIn, Rules;
    forall r
      ensures r in Rules(a, true) <==> r in Rules(b, true)
    {
      SameStatementsSameRules(a, b, true, r);
    }
    TaintOrderIrrelevant(env, a, b, s, t);
  }

  /** One level of nesting: a block between the statements around it. */
  datatype Level = Level(text: string, before: seq<Node>, after: seq<Node>)

  function Nest(levels: seq<Level>, block: Node): Node {
    if levels == [] then block
    else Other(levels[0].text, levels[0].before + [Nest(levels[1..], block)] + levels[0].after)
  }

  lemma SomeRuleConcat(xs: seq<Node>, ys: seq<Node>, r: Rule)
    ensures SomeRule(xs + ys, r) <==> SomeRule(xs, r) || SomeRule(ys, r)
  {
    hide Rules;
    var zs := xs + ys;
    if j :| 0 <= j < |xs| && r in Rules(xs[j], false) {
      assert zs[j] == xs[j];
    }
    if j :| 0 <= j < |ys| && r in Rules(ys[j], false) {
      assert zs[|xs| + j] == ys[j];
    }
    if j :| 0 <= j < |zs| && r in Rules(zs[j], false) {
      assert zs[j] == if j < |xs| then xs[j] else ys[j - |xs|];
    }
  }

  lemma SomeRuleOne(n: Node, r: Rule)
    ensures SomeRule([n], r) <==> r in Rules(n, false)
  {
    hide Rules;
    assert [n][0] == n;
  }

  lemma {:induction false} NestRules(levels: seq<Level>, a: Node, b: Node, r: Rule)
    requires r in Rules(a, false) <==> r in Rules(b, false)
    ensures r in Rules(Nest(levels, a), false) <==> r in Rules(Nest(levels, b), false)
    decreases |levels|
  {
    hide Rules, SomeRule;
    if levels != [] {
      NestRules(levels[1..], a, b, r);
      LevelRules(levels[0], Nest(levels[1..], a), r);
      LevelRules(levels[0], Nest(levels[1..], b), r);
    }
  }

  lemma LevelRules(level: Level, n: Node, r: Rule)
    ensures r in Rules(Other(level.text, level.before + [n] + level.after), false)
      <==> SomeRule(level.before, r) || r in Rules(n, false) || SomeRule(level.after, r)
  {
    hide Rules, SomeRule;
    var xs := level.before + [n] + level.after;
    ScopeRules(Other(level.text, xs), false, r);
    SomeRuleConcat(level.before + [n], level.after, r);
    SomeRuleConcat(level.before, [n], r);
    SomeRuleOne(n, r);
  }

  /** A scope whose body is a block nested among other statements. */
  function ScopeWith(asFunction: bool, text: string, params: set<string>, levels: seq<Level>, block: Node): Node {
    if asFunction then Function(text, params, [Nest(levels, block)]) else Nest(levels, block)
  }

  /** So may the statements of a block nested anywhere in the scope. */
  lemma NestedOrderIrrelevant(env: Env, asFunction: bool, text: string, levels: seq<Level>, inner: string,
                              xs: seq<Node>, ys: seq<Node>, s: set<string>, t: set<string>)
    requires SameStatements(xs, ys)
    requires IsLeast(HoldsIn(env), Target, Rules(ScopeWith(asFunction, text, env.params, levels, Other(inner, xs)), true), {}, s)
    requires IsLeast(HoldsIn(env), Target, Rules(ScopeWith(asFunction, text, env.params, levels, Other(inner, ys)), true), {}, t)
    ensures s == t
  {
    hide HoldsIn, Rules;
    var a := ScopeWith(asFunction, text, env.params, levels, Other(inner, xs));
    var b := ScopeWith(asFunction, text, env.params, levels, Other(inner, ys));
    forall r
      ensures r in Rules(a, true) <==> r in Rules(b, true)
    {
      NestedSameRules(asFunction, text, env.params, levels, inner, xs, ys, r);
    }
    TaintOrderIrrelevant(env, a, b, s, t);
  }

  lemma NestedSameRules(asFunction: bool, text: string, params: set<string>, levels: seq<Level>, inner: string,
                        xs: seq<Node>, ys: seq<Node>, r: Rule)
    requires SameStatements(xs, ys)
    ensures r in Rules(ScopeWith(asFunction, text, params, levels, Other(inner, xs)), true)
      <==> r in Rules(ScopeWith(asFunction, text, params, levels, Other(inner, ys)), true)
  {
    hide Rules;
    var a, b := Other(inner, xs), Other(inner, ys);
    SameStatementsSameRules(a, b, false, r);
    NestRules(levels, a, b, r);
    RootIsBlock(Nest(levels, a), r);
    RootIsBlock(Nest(levels, b), r);
    if asFunction {
      FunctionRules(text, params, Nest(levels, a), r);
      FunctionRules(text, params, Nest(levels, b), r);
    }
  }

  lemma FunctionRules(text: string, params: set<string>, n: Node, r: Rule)
    ensures r in Rules(Function(text, params, [n]), true) <==> r in Rules(n, false)
  {
    hide Rules, SomeRule;
    ScopeRules(Function(text, params, [n]), true, r);
    SomeRuleOne(n, r);
  }

  lemma RootIsBlock(n: Node, r: Rule)
    ensures n.Other? ==> (r in Rules(n, true) <==> r in Rules(n, false))
  {
  }

  // ---------------------------------------------------------------------
  // Taint as reachability
  // ---------------------------------------------------------------------

  /** The keys from which taint flows into an expression: its own key and
      those behind wrappers, branches and path transforms, but not through a
      path.resolve call. */
  function FlowKeys(env: Env, n: Node): set<string> {
    (if TaintKey(n).Some? && TaintKey(n).value != "" then {TaintKey(n).value} else {})
    + if IsResolveCall(env, n) then {} else
        match n
        case Wrap(_, inner) => FlowKeys(env, inner)
        case Cond(_, _, whenTrue, whenFalse) => FlowKeys(env, whenTrue) + FlowKeys(env, whenFalse)
        case Call(_, Prop(_, base, name), args) =>
          if name in PATH_TRANSFORMS
          then FlowKeys(env, base) + set i, k | 0 <= i < |args| && k in FlowKeys(env, args[i]) :: k
          else {}
        case _ => {}
  }

  /** An expression is a root key by itself or because of one tainted key. */
  lemma {:induction false} RootKeyLinear(env: Env, n: Node, s: set<string>)
    ensures IsRootKey(env, n, s) <==> IsRootKey(env, n, {}) || exists k :: k in FlowKeys(env, n) && k in s
    decreases n
  {
    if TaintKey(n).Some? && TaintKey(n).value != "" && TaintKey(n).value in s {
      assert TaintKey(n).value in FlowKeys(env, n);
    } else if !IsResolveCall(env, n) {
      match n
      case Wrap(_, inner) => RootKeyLinear(env, inner, s);
      case Cond(_, _, whenTrue, whenFalse) =>
        RootKeyLinear(env, whenTrue, s);
        RootKeyLinear(env, whenFalse, s);
      case Call(_, Prop(_, base, name), args) =>
        RootKeyLinear(env, base, s);
        forall i | 0 <= i < |args|
          ensures IsRootKey(env, args[i], s) <==> IsRootKey(env, args[i], {}) || exists k :: k in FlowKeys(env, args[i]) && k in s
        {
          RootKeyLinear(env, args[i], s);
        }
        if name in PATH_TRANSFORMS {
          assert forall i, k :: 0 <= i < |args| && k in FlowKeys(env, args[i]) ==> k in FlowKeys(env, n);
        }
      case _ =>
    }
  }

  /** Key k, once tainted, makes the rule fire. */
  predicate Feeds(env: Env, k: string, r: Rule) {
    match r
    case Copy(from, _) => k == from
    case Flow(e, _) =>
      || k in FlowKeys(env, e)
      || (&& e.Call? && e.callee.Prop? && e.callee.name == "get" && env.projectScoped(TextOf(e.callee.base))
          && exists i :: 0 <= i < |e.args| && k in FlowKeys(env, e.args[i]))
  }

  /** A rule fires by itself or because of one tainted key. */
  lemma HoldsLinear(env: Env, r: Rule, s: set<string>)
    ensures Holds(env, r, s) <==> Holds(env, r, {}) || exists k :: k in s && Feeds(env, k, r)
  {
    hide IsRootKey, ContainsRootResolve, FlowKeys;
    if r.Flow? {
      RootKeyLinear(env, r.e, s);
      if r.e.Call? {
        forall i | 0 <= i < |r.e.args|
          ensures IsRootKey(env, r.e.args[i], s) <==>
            IsRootKey(env, r.e.args[i], {}) || exists k :: k in FlowKeys(env, r.e.args[i]) && k in s
        {
          RootKeyLinear(env, r.e.args[i], s);
        }
      }
    }
  }

  /** A chain of rules: the first fires by itself, each later one because of
      the key that the one before it tainted. */
  ghost predicate IsChain(env: Env, rules: seq<Rule>, chain: seq<Rule>) {
    && chain != [] && Holds(env, chain[0], {})
    && (forall i :: 0 <= i < |chain| ==> chain[i] in rules)
    && (forall i :: 0 < i < |chain| ==> Feeds(env, chain[i - 1].to, chain[i]))
  }

  ghost predicate Linked(env: Env, rules: seq<Rule>, x: string) {
    exists chain: seq<Rule> :: IsChain(env, rules, chain) && chain[|chain| - 1].to == x
  }

  lemma {:induction false} ChainTaints(env: Env, rules: seq<Rule>, chain: seq<Rule>, s: set<string>)
    requires IsChain(env, rules, chain) && Closed(HoldsIn(env), Target, rules, s)
    ensures chain[|chain| - 1].to in s
  {
    hide Holds, Feeds;
    var last := chain[|chain| - 1];
    HoldsLinear(env, last, s);
    if |chain| > 1 {
      ChainTaints(env, rules, chain[..|chain| - 1], s);
    }
    var i :| 0 <= i < |rules| && rules[i] == last;
    assert HoldsIn(env)(rules[i], s);
  }

  lemma LinkedStep(env: Env, rules: seq<Rule>, r: Rule, s: set<string>)
    requires r in rules && Holds(env, r, s) && forall x :: x in s ==> Linked(env, rules, x)
    ensures Linked(env, rules, r.to)
  {
    hide Holds, Feeds;
    HoldsLinear(env, r, s);
    if Holds(env, r, {}) {
      assert IsChain(env, rules, [r]) && [r][|[r]| - 1].to == r.to;
    } else {
      var k :| k in s && Feeds(env, k, r);
      var chain: seq<Rule> :| IsChain(env, rules, chain) && chain[|chain| - 1].to == k;
      var longer := chain + [r];
      assert IsChain(env, rules, longer) && longer[|longer| - 1].to == r.to;
    }
  }

  /** A key is tainted if and only if a chain of rules leads to it from an
      expression that is a raw root by itself. */
  lemma TaintChainsExact(env: Env, rules: seq<Rule>, s: set<string>, x: string)
    requires IsLeast(HoldsIn(env), Target, rules, {}, s)
    ensures x in s <==> Linked(env, rules, x)
  {
    hide Holds, Linked;
    var linked := set y | y in s && Linked(env, rules, y);
    HoldsMonotone(env);
    forall i | 0 <= i < |rules| && HoldsIn(env)(rules[i], linked)
      ensures Target(rules[i]) in linked
    {
      assert Holds(env, rules[i], linked);
      LinkedStep(env, rules, rules[i], linked);
      assert HoldsIn(env)(rules[i], s);
    }
    assert s <= linked;
    LinkedIsTainted(env, rules, s, x);
  }

  lemma LinkedIsTainted(env: Env, rules: seq<Rule>, s: set<string>, x: string)
    requires Closed(HoldsIn(env), Target, rules, s)
    ensures Linked(env, rules, x) ==> x in s
  {
    hide Holds, Feeds;
    if chain: seq<Rule> :| IsChain(env, rules, chain) && chain[|chain| - 1].to == x {
      ChainTaints(env, rules, chain, s);
    }
  }
}
