/** The subprocess-timeout search of the invariants gate: does an options
    expression carry a timeout, through spreads and object bindings that may
    refer to each other in cycles? */
module TimeoutSearch {
  import opened Text

  /** `Wrapped` is any of the syntactic wrappers that unwrapExpression peels. */
  datatype Expr =
    | Object(properties: seq<Property>)
    | Ident(name: string)
    | Wrapped(inner: Expr)
    | Other

  /** `Named` is a property assignment or shorthand; a computed name is None. */
  datatype Property =
    | Spread(e: Expr)
    | Named(name: Option<string>)
    | OtherProperty

  type Bindings = map<string, Expr>

  function Unwrap(e: Expr): (u: Expr)
    ensures !u.Wrapped? && (u == e || u < e)
  {
    if e.Wrapped? then Unwrap(e.inner) else e
  }

  predicate IsTimeoutKey(p: Property) {
    p.Named? && (p.name == Some("timeout") || p.name == Some("timeoutMs"))
  }

  predicate HasTimeout(b: Bindings, e: Expr, seen: set<string>)
    decreases b.Keys - seen, Unwrap(e), 1
  {
    var u := Unwrap(e);
    match u
    case Object(properties) =>
      exists i :: 0 <= i < |properties| && PropertyHasTimeout(b, properties[i], seen)
    case Ident(name) =>
      name !in seen && name in b && HasTimeout(b, b[name], seen + {name})
    case _ => false
  }

  predicate PropertyHasTimeout(b: Bindings, p: Property, seen: set<string>)
    decreases b.Keys - seen, p, 0
  {
    if p.Spread? then
      var spread := Unwrap(p.e);
      if spread.Ident? && spread.name !in seen && spread.name in b then
        HasTimeout(b, b[spread.name], seen + {spread.name})
      else HasTimeout(b, spread, seen)
    else IsTimeoutKey(p)
  }

  // ---------------------------------------------------------------------
  // Reachability, with no bookkeeping
  // ---------------------------------------------------------------------

  /** One spread out of an object, or one binding of an identifier. */
  ghost predicate Leads(b: Bindings, u: Expr, v: Expr) {
    || (u.Object? && exists i :: 0 <= i < |u.properties| && u.properties[i].Spread? && v == Unwrap(u.properties[i].e))
    || (u.Ident? && u.name in b && v == Unwrap(b[u.name]))
  }

  ghost predicate IsPath(b: Bindings, p: seq<Expr>) {
    p != [] && !p[0].Wrapped? && forall i :: 0 <= i < |p| - 1 ==> Leads(b, p[i], p[i + 1])
  }

  ghost predicate CarriesTimeout(u: Expr) {
    u.Object? && (Named(Some("timeout")) in u.properties || Named(Some("timeoutMs")) in u.properties)
  }

  ghost predicate Witness(b: Bindings, e: Expr, p: seq<Expr>) {
    IsPath(b, p) && p[0] == Unwrap(e) && CarriesTimeout(p[|p| - 1])
  }

  lemma PathCons(b: Bindings, u: Expr, v: Expr, p: seq<Expr>)
    requires !u.Wrapped? && Leads(b, u, Unwrap(v)) && Witness(b, v, p)
    ensures Witness(b, u, [u] + p)
  {
  }

  lemma PathSuffix(b: Bindings, p: seq<Expr>, k: nat)
    requires IsPath(b, p) && k < |p|
    ensures IsPath(b, p[k..])
  {
    if k > 0 {
      assert Leads(b, p[k - 1], p[k - 1 + 1]);
    }
  }

  /** A positive answer comes with a path to a literal that carries the key. */
  lemma {:induction false} SearchSound(b: Bindings, e: Expr, seen: set<string>) returns (p: seq<Expr>)
    requires HasTimeout(b, e, seen)
    ensures Witness(b, e, p)
    decreases b.Keys - seen, Unwrap(e)
  {
    var u := Unwrap(e);
    if u.Ident? {
      p := SearchSound(b, b[u.name], seen + {u.name});
      PathCons(b, u, b[u.name], p);
      p := [u] + p;
    } else {
      var i :| 0 <= i < |u.properties| && PropertyHasTimeout(b, u.properties[i], seen);
      var property := u.properties[i];
      if property.Spread? {
        var spread := Unwrap(property.e);
        assert HasTimeout(b, spread, seen);
        p := SearchSound(b, spread, seen);
        PathCons(b, u, spread, p);
        p := [u] + p;
      } else {
        assert property == Named(property.name);
        p := [u];
      }
    }
  }

  /** A path that avoids the names already seen is found. If it comes back to
      the identifier it starts from, the part before that return is cut off. */
  lemma {:induction false} SearchComplete(b: Bindings, e: Expr, seen: set<string>, p: seq<Expr>)
    requires Witness(b, e, p)
    requires forall i :: 0 <= i < |p| && p[i].Ident? ==> p[i].name !in seen
    ensures HasTimeout(b, e, seen)
    decreases |p|
  {
    var u := p[0];
    if |p| == 1 {
      var key := if Named(Some("timeout")) in u.properties then Named(Some("timeout")) else Named(Some("timeoutMs"));
      var i :| 0 <= i < |u.properties| && u.properties[i] == key;
      assert PropertyHasTimeout(b, u.properties[i], seen);
    } else {
      var v, rest := p[1], p[1..];
      assert Leads(b, u, v);
      PathSuffix(b, p, 1);
      if u.Object? {
        var i :| 0 <= i < |u.properties| && u.properties[i].Spread? && v == Unwrap(u.properties[i].e);
        SearchComplete(b, v, seen, rest);
        assert PropertyHasTimeout(b, u.properties[i], seen);
      } else if k :| 1 <= k < |p| && p[k] == u {
        PathSuffix(b, p, k);
        SearchComplete(b, e, seen, p[k..]);
      } else {
        SearchComplete(b, v, seen + {u.name}, rest);
        assert HasTimeout(b, b[u.name], seen + {u.name});
      }
    }
  }

  /** The search answers exactly whether a timeout is reachable, on every
      binding graph: the per-path seen set hides nothing. */
  lemma SearchExact(b: Bindings, e: Expr)
    ensures HasTimeout(b, e, {}) <==> exists p :: Witness(b, e, p)
  {
    if HasTimeout(b, e, {}) {
      var p := SearchSound(b, e, {});
    }
    if p :| Witness(b, e, p) {
      SearchComplete(b, e, {}, p);
    }
  }

  function Wraps(e: Expr, k: nat): Expr {
    if k == 0 then e else Wrapped(Wraps(e, k - 1))
  }

  /** Unwrapping peels all wrappers and nothing else. */
  lemma {:induction false} UnwrapPeels(e: Expr, k: nat)
    requires !e.Wrapped?
    ensures Unwrap(Wraps(e, k)) == e
  {
    if k > 0 {
      UnwrapPeels(e, k - 1);
    }
  }
}
