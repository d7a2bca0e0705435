/** What the taint of a scope means in terms of its syntax tree, said without
    the rules that the gate's traversal fires. */
module TaintMeaning {
  import opened Text
  import opened Syntax
  import opened Propagation
  import opened RootTaint

  // ---------------------------------------------------------------------
  // Keys
  // ---------------------------------------------------------------------

  /** n is the access `names[0].names[1]...`, by dots or literal indices. */
  ghost predicate Accesses(n: Node, names: seq<string>)
    decreases |names|
  {
    if |names| == 0 then false
    else if |names| == 1 then n == Ident(names[0])
    else
      var last := names[|names| - 1];
      && ((n.Prop? && n.name == last) || (n.Elem? && n.literal == Some(last)))
      && Accesses(n.base, names[..|names| - 1])
  }

  /** The names joined by dots. */
  function DotsJoined(names: seq<string>): string {
    if names == [] then ""
    else if |names| == 1 then names[0]
    else DotsJoined(names[..|names| - 1]) + "." + names[|names| - 1]
  }

  /** An expression is tracked under a key: its dotted access path. */
  ghost predicate KeyIs(n: Node, k: string) {
    k != "" && exists names :: Accesses(n, names) && names[0] != "" && k == DotsJoined(names)
  }

  lemma {:induction false} AccessKey(n: Node, names: seq<string>)
    requires Accesses(n, names) && names[0] != ""
    ensures TaintKey(n) == Some(DotsJoined(names)) && DotsJoined(names) != ""
    decreases |names|
  {
    if |names| > 1 {
      AccessKey(n.base, names[..|names| - 1]);
    }
  }

  lemma {:induction false} KeyAccess(n: Node) returns (names: seq<string>)
    requires TaintKey(n).Some? && TaintKey(n).value != ""
    ensures Accesses(n, names) && names[0] != "" && TaintKey(n).value == DotsJoined(names)
    decreases n
  {
    if n.Ident? {
      names := [n.name];
    } else {
      var front := KeyAccess(n.base);
      var last := if n.Prop? then n.name else n.literal.value;
      names := front + [last];
      assert names[..|names| - 1] == front;
    }
  }

  lemma KeyMeaning(n: Node, k: string)
    ensures TaintKey(n) == Some(k) && k != "" <==> KeyIs(n, k)
  {
    if TaintKey(n) == Some(k) && k != "" {
      var names := KeyAccess(n);
    }
    if names :| k != "" && Accesses(n, names) && names[0] != "" && k == DotsJoined(names) {
      AccessKey(n, names);
    }
  }

  // ---------------------------------------------------------------------
  // Raw roots
  // ---------------------------------------------------------------------

  /** A name that denotes path.resolve, or the `resolve` property of something
      that has it. */
  ghost predicate DenotesResolve(env: Env, callee: Node) {
    || (exists name :: callee == Ident(name) && name in env.resolveNames)
    || (exists text, base :: callee == Prop(text, base, "resolve") && TextOf(base) + ".resolve" in env.resolveNames)
  }

  /** A call of path.resolve on a single argument with the name of a root. */
  ghost predicate RawRoot(env: Env, n: Node) {
    exists text, callee, arg :: n == Call(text, callee, [arg]) && DenotesResolve(env, callee) && NamedAsRoot(env, arg)
  }

  ghost predicate NamedAsRoot(env: Env, arg: Node) {
    env.rootName(match arg case Ident(name) => name case Prop(_, _, name) => name case _ => "")
  }

  lemma DenotesMeaning(env: Env, n: Node)
    ensures IsResolveCall(env, n) <==> n.Call? && DenotesResolve(env, n.callee)
  {
    if n.Call? && n.callee.Ident? {
      assert n.callee == Ident(n.callee.name);
    } else if n.Call? && n.callee.Prop? {
      assert n.callee == Prop(n.callee.text, n.callee.base, n.callee.name);
    }
  }

  lemma RawRootMeaning(env: Env, n: Node)
    ensures IsResolveCall(env, n) && LooksLikeRoot(env, n) <==> RawRoot(env, n)
  {
    hide DenotesResolve;
    DenotesMeaning(env, n);
    if n.Call? && |n.args| == 1 {
      assert n == Call(n.text, n.callee, [n.args[0]]);
    }
  }

  // ---------------------------------------------------------------------
  // Expressions that hold a root
  // ---------------------------------------------------------------------

  /** The value of n may be that of m: through a wrapper, a branch of a
      conditional, or the receiver or an argument of a path transform. */
  ghost predicate FlowsFrom(n: Node, m: Node) {
    match n
    case Wrap(_, inner) => m == inner
    case Cond(_, _, whenTrue, whenFalse) => m == whenTrue || m == whenFalse
    case Call(_, callee, args) =>
      && callee.Prop? && callee.name in {"normalize", "toLowerCase", "toUpperCase", "replace"}
      && (m == callee.base || m in args)
    case _ => false
  }

  ghost predicate IsFlow(path: seq<Node>) {
    path != [] && forall i :: 0 < i < |path| ==> FlowsFrom(path[i - 1], path[i])
  }

  /** Where the flow ends there is a tainted key or a raw root. */
  ghost predicate RootAt(env: Env, m: Node, s: set<string>) {
    (exists k :: KeyIs(m, k) && k in s) || RawRoot(env, m)
  }

  ghost predicate HoldsRoot(env: Env, n: Node, s: set<string>) {
    exists path :: IsFlow(path) && path[0] == n && RootAt(env, path[|path| - 1], s)
  }

  lemma HoldsRootHere(env: Env, n: Node, s: set<string>)
    requires RootAt(env, n, s)
    ensures HoldsRoot(env, n, s)
  {
    assert IsFlow([n]) && [n][0] == n && [n][|[n]| - 1] == n;
  }

  lemma HoldsRootThrough(env: Env, n: Node, m: Node, s: set<string>)
    requires FlowsFrom(n, m) && HoldsRoot(env, m, s)
    ensures HoldsRoot(env, n, s)
  {
    hide RootAt, FlowsFrom;
    var path :| IsFlow(path) && path[0] == m && RootAt(env, path[|path| - 1], s);
    var longer := [n] + path;
    assert forall i :: 0 < i < |longer| ==> longer[i] == path[i - 1];
    assert IsFlow(longer) && longer[0] == n && longer[|longer| - 1] == path[|path| - 1];
  }

  lemma HoldsRootSplit(env: Env, n: Node, s: set<string>)
    requires HoldsRoot(env, n, s) && !RootAt(env, n, s)
    ensures exists m :: FlowsFrom(n, m) && HoldsRoot(env, m, s)
  {
    hide RootAt, FlowsFrom;
    var path :| IsFlow(path) && path[0] == n && RootAt(env, path[|path| - 1], s);
    var rest := path[1..];
    assert forall i :: 0 < i < |rest| ==> rest[i] == path[i + 1] && rest[i - 1] == path[i];
    assert IsFlow(rest) && rest[0] == path[1] && rest[|rest| - 1] == path[|path| - 1];
    assert FlowsFrom(n, path[1]);
  }

  lemma RootAtMeaning(env: Env, n: Node, s: set<string>)
    ensures RootAt(env, n, s) <==>
      || (TaintKey(n).Some? && TaintKey(n).value != "" && TaintKey(n).value in s)
      || (IsResolveCall(env, n) && LooksLikeRoot(env, n))
  {
    hide KeyIs, RawRoot;
    RawRootMeaning(env, n);
    if TaintKey(n).Some? {
      KeyMeaning(n, TaintKey(n).value);
    }
    forall k
      ensures TaintKey(n) == Some(k) && k != "" <==> KeyIs(n, k)
    {
      KeyMeaning(n, k);
    }
  }

  /** Neither an access nor a call of path.resolve passes a value on. */
  lemma NoFlow(env: Env, n: Node, m: Node)
    requires FlowsFrom(n, m)
    ensures TaintKey(n) == None && !IsResolveCall(env, n)
  {
  }

  /** The gate's test for root keys finds exactly the expressions whose value
      may be that of a tainted key or of a raw root. */
  lemma {:induction false} RootKeyMeaning(env: Env, n: Node, s: set<string>)
    ensures IsRootKey(env, n, s) <==> HoldsRoot(env, n, s)
    decreases n
  {
    hide HoldsRoot, RootAt;
    RootAtMeaning(env, n, s);
    if RootAt(env, n, s) {
      HoldsRootHere(env, n, s);
    } else {
      forall m | FlowsFrom(n, m)
        ensures IsRootKey(env, m, s) <==> HoldsRoot(env, m, s)
        ensures HoldsRoot(env, m, s) ==> HoldsRoot(env, n, s)
        ensures TaintKey(n) == None && !IsResolveCall(env, n)
      {
        NoFlow(env, n, m);
        FlowSmaller(n, m);
        RootKeyMeaning(env, m, s);
        if HoldsRoot(env, m, s) {
          HoldsRootThrough(env, n, m, s);
        }
      }
      if HoldsRoot(env, n, s) {
        HoldsRootSplit(env, n, s);
      }
      RootKeyUnfolds(env, n, s);
    }
  }

  lemma FlowSmaller(n: Node, m: Node)
    requires FlowsFrom(n, m)
    ensures m < n
  {
  }

  lemma RootKeyUnfolds(env: Env, n: Node, s: set<string>)
    requires !RootAt(env, n, s)
    ensures IsRootKey(env, n, s) <==> exists m :: FlowsFrom(n, m) && IsRootKey(env, m, s)
  {
    RootAtMeaning(env, n, s);
    hide RootAt;
    if m :| FlowsFrom(n, m) && IsRootKey(env, m, s) {
      NoFlow(env, n, m);
    }
    if IsRootKey(env, n, s) {
      match n
      case Wrap(_, inner) => assert FlowsFrom(n, inner);
      case Cond(_, _, whenTrue, whenFalse) => assert FlowsFrom(n, whenTrue) && FlowsFrom(n, whenFalse);
      case Call(_, Prop(_, base, name), args) =>
        assert FlowsFrom(n, base);
        if !IsRootKey(env, base, s) {
          var i :| 0 <= i < |args| && IsRootKey(env, args[i], s);
          assert FlowsFrom(n, args[i]);
        }
      case _ =>
    }
  }

  /** A raw root somewhere in the expression. */
  ghost predicate HasRawRoot(env: Env, n: Node) {
    exists m :: Below(n, m) && RawRoot(env, m)
  }

  lemma {:induction false} ContainsMeaning(env: Env, n: Node)
    ensures ContainsRootResolve(env, n) <==> HasRawRoot(env, n)
    decreases n
  {
    hide RawRoot, Reaches, ChildOf;
    RawRootMeaning(env, n);
    ReachesSelf(false, n);
    forall i | 0 <= i < |Children(n)|
      ensures ContainsRootResolve(env, Children(n)[i]) <==> HasRawRoot(env, Children(n)[i])
      ensures HasRawRoot(env, Children(n)[i]) ==> HasRawRoot(env, n)
    {
      var c := Children(n)[i];
      ContainsMeaning(env, c);
      ChildrenMeaning(n, c);
      if m :| Below(c, m) && RawRoot(env, m) {
        ReachesThrough(false, n, c, m);
        assert Below(n, m);
      }
    }
    if RawRoot(env, n) {
      assert Below(n, n);
    } else if m :| Below(n, m) && RawRoot(env, m) {
      ReachesSplit(false, n, m);
      var c :| ChildOf(n, c) && Reaches(false, c, m);
      ChildrenMeaning(n, c);
      assert Below(c, m);
      var i :| 0 <= i < |Children(n)| && Children(n)[i] == c;
    }
  }

  /** A parameter of the scope, or a property of one, with a root's name. */
  ghost predicate RootParameter(env: Env, n: Node) {
    || (exists name :: n == Ident(name) && name in env.params && env.directRootName(name))
    || (exists text, param, name :: n == Prop(text, Ident(param), name) && param in env.params && env.directRootName(name))
  }

  /** A `get` on a project-scoped collection with a root as a key. */
  ghost predicate LooksUpRoot(env: Env, n: Node, s: set<string>) {
    exists text, text2, base, args, arg ::
      && n == Call(text, Prop(text2, base, "get"), args) && arg in args && env.projectScoped(TextOf(base))
      && (HoldsRoot(env, arg, s) || RootParameter(env, arg))
  }

  lemma RootParameterMeaning(env: Env, n: Node)
    ensures IsDirectRootParameter(env, n) <==> RootParameter(env, n)
  {
    if n.Ident? {
      assert n == Ident(n.name);
    } else if n.Prop? && n.base.Ident? {
      assert n == Prop(n.text, Ident(n.base.name), n.name);
    }
  }

  lemma LookupMeaning(env: Env, n: Node, s: set<string>)
    ensures IsProjectLookup(env, n, s) <==> LooksUpRoot(env, n, s)
  {
    hide HoldsRoot, RootParameter, IsRootKey, IsDirectRootParameter;
    if n.Call? && n.callee.Prop? {
      forall i | 0 <= i < |n.args|
        ensures IsRootKey(env, n.args[i], s) <==> HoldsRoot(env, n.args[i], s)
        ensures IsDirectRootParameter(env, n.args[i]) <==> RootParameter(env, n.args[i])
      {
        RootKeyMeaning(env, n.args[i], s);
        RootParameterMeaning(env, n.args[i]);
      }
      assert n == Call(n.text, Prop(n.callee.text, n.callee.base, n.callee.name), n.args);
    }
  }

  /** The expression may hold a raw root, given the tainted keys. */
  ghost predicate Taints(env: Env, n: Node, s: set<string>) {
    HoldsRoot(env, n, s) || HasRawRoot(env, n) || LooksUpRoot(env, n, s)
  }

  lemma TaintsMeaning(env: Env, n: Node, s: set<string>)
    ensures IsTainted(env, n, s) <==> Taints(env, n, s)
  {
    hide HoldsRoot, HasRawRoot, LooksUpRoot, IsRootKey, ContainsRootResolve, IsProjectLookup;
    RootKeyMeaning(env, n, s);
    ContainsMeaning(env, n);
    LookupMeaning(env, n, s);
  }

  // ---------------------------------------------------------------------
  // Statements
  // ---------------------------------------------------------------------

  /** The object literal e has property p below the property names. */
  ghost predicate HasProperty(e: Node, names: seq<string>, p: Property)
    decreases |names|
  {
    e.Object? &&
    if names == [] then p in e.properties
    else exists value :: KeyValue(names[0], value) in e.properties && HasProperty(value, names[1..], p)
  }

  /** Each name with a dot in front. */
  function Dots(names: seq<string>): string {
    if names == [] then "" else "." + names[0] + Dots(names[1..])
  }

  /** A property of a literal declared as `base` taints the dotted key x: its
      value holds a root, or it is the shorthand of a tainted name. */
  ghost predicate PropertyTaints(env: Env, base: string, p: Property, names: seq<string>, s: set<string>, x: string) {
    match p
    case KeyValue(name, value) => x == base + Dots(names) + "." + name && Taints(env, value, s)
    case Shorthand(name) => x == base + Dots(names) + "." + name && name in s
    case OtherProperty(_) => false
  }

  ghost predicate ObjectTaints(env: Env, base: string, e: Node, s: set<string>, x: string) {
    exists names, p :: HasProperty(e, names, p) && PropertyTaints(env, base, p, names, s, x)
  }

  /** The statement n taints x, given the tainted keys: it declares x with a
      value that holds a root, or an object with such a property, or it assigns
      such a value to x. */
  ghost predicate StatementTaints(env: Env, n: Node, s: set<string>, x: string) {
    match n
    case VarDecl(_, Name(name), init) => (x == name && Taints(env, init, s)) || ObjectTaints(env, name, init, s, x)
    case Assign(_, left, right) => KeyIs(left, x) && Taints(env, right, s)
    case _ => false
  }

  /** Some statement of the scope taints x. */
  ghost predicate Reason(env: Env, scope: Node, s: set<string>, x: string) {
    exists n :: InScope(scope, n) && StatementTaints(env, n, s, x)
  }

  // ---------------------------------------------------------------------
  // Rules and statements agree
  // ---------------------------------------------------------------------

  /** Some rule of the list fires for x. */
  ghost predicate Fires(env: Env, rules: seq<Rule>, s: set<string>, x: string) {
    exists r :: r in rules && r.to == x && Holds(env, r, s)
  }

  lemma FiresConcat(env: Env, a: seq<Rule>, b: seq<Rule>, s: set<string>, x: string)
    ensures Fires(env, a + b, s, x) <==> Fires(env, a, s, x) || Fires(env, b, s, x)
  {
    hide Holds;
  }

  lemma FiresOne(env: Env, r: Rule, s: set<string>, x: string)
    ensures Fires(env, [r], s, x) <==> r.to == x && Holds(env, r, s)
    ensures !Fires(env, [], s, x)
  {
    hide Holds;
    assert r in [r];
  }

  lemma {:induction false} PropertyFires(env: Env, base: string, p: Property, s: set<string>, x: string)
    ensures Fires(env, PropertyRules(base, p), s, x) <==>
      || PropertyTaints(env, base, p, [], s, x)
      || (p.KeyValue? && ObjectTaints(env, base + "." + p.name, p.value, s, x))
    decreases p, 1
  {
    hide Fires, Taints, ObjectTaints, IsTainted, ObjectRules;
    assert base + Dots([]) == base;
    match p
    case KeyValue(name, value) =>
      var key := base + "." + name;
      assert base + Dots([]) + "." + name == key;
      FiresOne(env, Flow(value, key), s, x);
      TaintsMeaning(env, value, s);
      if value.Object? {
        FiresConcat(env, [Flow(value, key)], ObjectRules(key, value.properties), s, x);
        ObjectFires(env, key, value.properties, s, x);
        WholeObject(env, key, value, s, x);
      } else {
        assert [Flow(value, key)] + [] == [Flow(value, key)];
        NoObject(env, key, value, s, x);
      }
    case Shorthand(name) => FiresOne(env, Copy(name, base + "." + name), s, x);
    case OtherProperty(_) => FiresOne(env, Copy("", ""), s, x);
  }

  /** One of the listed properties taints x, itself or from within. */
  ghost predicate ListTaints(env: Env, base: string, properties: seq<Property>, s: set<string>, x: string) {
    exists p :: p in properties &&
      (PropertyTaints(env, base, p, [], s, x) || (p.KeyValue? && ObjectTaints(env, base + "." + p.name, p.value, s, x)))
  }

  lemma {:induction false} ObjectFires(env: Env, base: string, properties: seq<Property>, s: set<string>, x: string)
    ensures Fires(env, ObjectRules(base, properties), s, x) <==> ListTaints(env, base, properties, s, x)
    decreases properties, 0
  {
    hide Fires, PropertyTaints, ObjectTaints, PropertyRules;
    if properties == [] {
      FiresOne(env, Copy("", ""), s, x);
    } else {
      var p, rest := properties[0], properties[1..];
      PropertyFires(env, base, p, s, x);
      ObjectFires(env, base, rest, s, x);
      FiresConcat(env, PropertyRules(base, p), ObjectRules(base, rest), s, x);
      assert forall q :: q in properties <==> q == p || q in rest;
    }
  }

  lemma NoObject(env: Env, base: string, e: Node, s: set<string>, x: string)
    requires !e.Object?
    ensures !ObjectTaints(env, base, e, s, x)
  {
    hide PropertyTaints;
  }

  /** The properties of an object at any depth: those it lists, and those of
      the objects among their values. */
  lemma WholeObject(env: Env, base: string, e: Node, s: set<string>, x: string)
    requires e.Object?
    ensures ObjectTaints(env, base, e, s, x) <==> ListTaints(env, base, e.properties, s, x)
  {
    hide Taints;
    if names, p :| HasProperty(e, names, p) && PropertyTaints(env, base, p, names, s, x) {
      if names != [] {
        var value :| KeyValue(names[0], value) in e.properties && HasProperty(value, names[1..], p);
        DeeperKey(env, base, p, names, s, x);
        assert ObjectTaints(env, base + "." + names[0], value, s, x);
      }
    }
    if p :| p in e.properties && PropertyTaints(env, base, p, [], s, x) {
      assert HasProperty(e, [], p);
    }
    if q :| q in e.properties && q.KeyValue? && ObjectTaints(env, base + "." + q.name, q.value, s, x) {
      var names, p :| HasProperty(q.value, names, p) && PropertyTaints(env, base + "." + q.name, p, names, s, x);
      var longer := [q.name] + names;
      assert longer[1..] == names;
      assert KeyValue(longer[0], q.value) == q;
      assert HasProperty(e, longer, p);
      DeeperKey(env, base, p, longer, s, x);
    }
  }

  lemma DeeperKey(env: Env, base: string, p: Property, names: seq<string>, s: set<string>, x: string)
    requires names != []
    ensures PropertyTaints(env, base, p, names, s, x) <==> PropertyTaints(env, base + "." + names[0], p, names[1..], s, x)
  {
    hide Taints;
    assert base + Dots(names) == base + "." + names[0] + Dots(names[1..]);
  }

  lemma OwnFires(env: Env, n: Node, s: set<string>, x: string)
    ensures Fires(env, OwnRules(n), s, x) <==> StatementTaints(env, n, s, x)
  {
    hide Fires, Taints, ObjectTaints, IsTainted, KeyIs, ObjectRules;
    match n
    case VarDecl(_, Name(name), init) =>
      FiresOne(env, Flow(init, name), s, x);
      TaintsMeaning(env, init, s);
      if init.Object? {
        FiresConcat(env, [Flow(init, name)], ObjectRules(name, init.properties), s, x);
        ObjectFires(env, name, init.properties, s, x);
        WholeObject(env, name, init, s, x);
      } else {
        assert [Flow(init, name)] + [] == [Flow(init, name)];
        NoObject(env, name, init, s, x);
      }
    case Assign(_, left, right) =>
      KeyMeaning(left, x);
      TaintsMeaning(env, right, s);
      FiresOne(env, Flow(right, if TaintKey(left).Some? then TaintKey(left).value else ""), s, x);
    case _ => FiresOne(env, Copy("", ""), s, x);
  }

  lemma {:induction false} RulesFire(env: Env, n: Node, root: bool, s: set<string>, x: string)
    requires root || !n.Function?
    ensures Fires(env, Rules(n, root), s, x) <==> Reason(env, n, s, x)
    decreases n, 1
  {
    hide Fires, StatementTaints, Reaches, ChildOf, OwnRules, Children;
    OwnFires(env, n, s, x);
    FiresConcat(env, OwnRules(n), RulesFrom(n, 0), s, x);
    ChildrenFire(env, n, 0, s, x);
    ReachesSelf(true, n);
    if m :| InScope(n, m) && StatementTaints(env, m, s, x) {
      if m != n {
        ReachesSplit(true, n, m);
        var c :| ChildOf(n, c) && !c.Function? && Reaches(true, c, m);
        ChildrenMeaning(n, c);
        var j :| 0 <= j < |Children(n)| && Children(n)[j] == c;
        assert InScope(c, m);
      }
    }
    if StatementTaints(env, n, s, x) {
      assert InScope(n, n);
    }
    if j :| 0 <= j < |Children(n)| && !Children(n)[j].Function? && Reason(env, Children(n)[j], s, x) {
      var c := Children(n)[j];
      ChildrenMeaning(n, c);
      var m :| InScope(c, m) && StatementTaints(env, m, s, x);
      ReachesThrough(true, n, c, m);
      assert InScope(n, m);
    }
  }

  lemma {:induction false} ChildrenFire(env: Env, n: Node, k: nat, s: set<string>, x: string)
    requires k <= |Children(n)|
    ensures Fires(env, RulesFrom(n, k), s, x) <==>
      exists j :: k <= j < |Children(n)| && !Children(n)[j].Function? && Reason(env, Children(n)[j], s, x)
    decreases n, 0, |Children(n)| - k
  {
    hide Fires, Reason, OwnRules, Children;
    if k == |Children(n)| {
      FiresOne(env, Copy("", ""), s, x);
    } else {
      var c := Children(n)[k];
      ChildrenFire(env, n, k + 1, s, x);
      FiresConcat(env, Rules(c, false), RulesFrom(n, k + 1), s, x);
      if c.Function? {
        FiresOne(env, Copy("", ""), s, x);
      } else {
        RulesFire(env, c, false, s, x);
      }
    }
  }

  // ---------------------------------------------------------------------
  // The meaning of the result
  // ---------------------------------------------------------------------

  /** Everything that some statement of the scope taints is in t. */
  ghost predicate Saturated(env: Env, scope: Node, t: set<string>) {
    forall x :: Reason(env, scope, t, x) ==> x in t
  }

  lemma SaturatedIsClosed(env: Env, scope: Node, t: set<string>)
    ensures Saturated(env, scope, t) <==> Closed(HoldsIn(env), Target, Rules(scope, true), t)
  {
    hide Reason, Holds, Rules;
    var rules := Rules(scope, true);
    forall x
      ensures Fires(env, rules, t, x) <==> Reason(env, scope, t, x)
    {
      RulesFire(env, scope, true, t, x);
    }
    if Saturated(env, scope, t) {
      forall i | 0 <= i < |rules| && HoldsIn(env)(rules[i], t)
        ensures Target(rules[i]) in t
      {
        assert rules[i] in rules && Holds(env, rules[i], t);
        assert Fires(env, rules, t, rules[i].to);
      }
    }
    if Closed(HoldsIn(env), Target, rules, t) {
      forall x | Reason(env, scope, t, x)
        ensures x in t
      {
        var r :| r in rules && r.to == x && Holds(env, r, t);
        var i :| 0 <= i < |rules| && rules[i] == r;
        assert HoldsIn(env)(rules[i], t);
      }
    }
  }

  /** The tainted keys of a scope are exactly those that some statement of the
      scope taints, and no smaller set has all of these. */
  lemma ScopeTaintMeaning(env: Env, scope: Node, s: set<string>)
    requires IsLeast(HoldsIn(env), Target, Rules(scope, true), {}, s)
    ensures forall x :: x in s <==> Reason(env, scope, s, x)
    ensures forall t: set<string> :: Saturated(env, scope, t) ==> s <= t
  {
    hide Reason, Rules, HoldsIn;
    forall t: set<string>
      ensures Saturated(env, scope, t) <==> Closed(HoldsIn(env), Target, Rules(scope, true), t)
    {
      SaturatedIsClosed(env, scope, t);
    }
    forall x | x in s
      ensures Reason(env, scope, s, x)
    {
      if !Reason(env, scope, s, x) {
        WithoutIsSaturated(env, scope, s, x);
      }
    }
  }

  lemma WithoutIsSaturated(env: Env, scope: Node, s: set<string>, x: string)
    requires Saturated(env, scope, s) && !Reason(env, scope, s, x)
    ensures Saturated(env, scope, s - {x})
  {
    hide Reason, Rules, Holds;
    HoldsMonotone(env);
    forall y | Reason(env, scope, s - {x}, y)
      ensures y in s - {x}
    {
      RulesFire(env, scope, true, s - {x}, y);
      RulesFire(env, scope, true, s, y);
      var r :| r in Rules(scope, true) && r.to == y && Holds(env, r, s - {x});
      assert HoldsIn(env)(r, s - {x}) && HoldsIn(env)(r, s);
      assert Fires(env, Rules(scope, true), s, y);
    }
  }
}
