/** Which names denote path.resolve: seeded by the imports and grown, in
    place, through variable, destructuring and assignment aliases. */
module ResolveAliases {
  import opened Text
  import opened Syntax
  import opened Propagation

  const BASE_PATH_MODULES := {"path", "node:path"}
  const PATH_MODULES :=
    BASE_PATH_MODULES + {"path/posix", "node:path/posix", "path/win32", "node:path/win32"}

  // ---------------------------------------------------------------------
  // Imports
  // ---------------------------------------------------------------------

  datatype NamedImport = NamedImport(imported: Option<string>, local: string)

  datatype Import =
    | ImportEquals(name: string, from: string)
    | ImportNames(from: string, default: Option<string>, namespace: Option<string>, names: seq<NamedImport>)

  function Namespace(name: string, from: string): set<string> {
    {name + ".resolve"}
    + if from in BASE_PATH_MODULES then {name + ".posix.resolve", name + ".win32.resolve"} else {}
  }

  function Seeds(imports: seq<Import>): set<string> {
    if imports == [] then {} else
      var i, rest := imports[0], Seeds(imports[1..]);
      if i.from !in PATH_MODULES then rest else
        rest + match i
               case ImportEquals(name, from) => Namespace(name, from)
               case ImportNames(from, default, namespace, names) =>
                 (if default.Some? then Namespace(default.value, from) else {})
                 + (if namespace.Some? then Namespace(namespace.value, from)
                    else set k | 0 <= k < |names| && (names[k].imported == Some("resolve") || names[k].local == "resolve")
                           :: names[k].local)
  }

  // ---------------------------------------------------------------------
  // Alias rules
  // ---------------------------------------------------------------------

  /** If `from` denotes path.resolve, so does `to`. */
  datatype Edge = Edge(from: string, to: string)

  predicate Holds(e: Edge, s: set<string>) {
    e.from in s
  }

  function Target(e: Edge): string {
    e.to
  }

  lemma HoldsMonotone()
    ensures Monotone(Holds)
  {
  }

  function Source(right: Node): Option<string> {
    if right.Prop? || right.Ident? then Some(TextOf(right)) else None
  }

  function ElementEdges(from: string, elements: seq<Element>): seq<Edge> {
    if elements == [] then []
    else
      (if elements[0].imported == "resolve" && elements[0].local.Some? then [Edge(from, elements[0].local.value)] else [])
      + ElementEdges(from, elements[1..])
  }

  function OwnEdges(n: Node): seq<Edge> {
    if n.VarDecl? && n.pattern.Name? then
      (if Source(n.init).Some? then [Edge(Source(n.init).value, n.pattern.name)] else [])
    else if n.VarDecl? && n.pattern.ObjectPattern? then
      ElementEdges(TextOf(n.init) + ".resolve", n.pattern.elements)
    else if n.Assign? && n.left.Ident? && Source(n.right).Some? then [Edge(Source(n.right).value, n.left.name)]
    else []
  }

  function Edges(n: Node): seq<Edge>
    decreases n, |Children(n)| + 1
  {
    OwnEdges(n) + EdgesFrom(n, 0)
  }

  function EdgesFrom(n: Node, k: nat): seq<Edge>
    requires k <= |Children(n)|
    decreases n, |Children(n)| - k
  {
    if k == |Children(n)| then [] else Edges(Children(n)[k]) + EdgesFrom(n, k + 1)
  }

  function SweepEdges(edges: seq<Edge>, s: set<string>): set<string> {
    Sweep(Holds, Target, edges, s)
  }

  // ---------------------------------------------------------------------
  // The fixpoint loop
  // ---------------------------------------------------------------------

  class AliasScan {
    var named: set<string>
    var changed: bool

    constructor (seed: set<string>)
      ensures named == seed
    {
      named, changed := seed, false;
    }

    method Add(name: string)
      modifies this
      ensures named == old(named) + {name}
      ensures changed == (old(changed) || named != old(named))
    {
      if name !in named {
        named := named + {name};
        changed := true;
      }
    }

    method VisitElements(from: string, elements: seq<Element>)
      modifies this
      ensures named == SweepEdges(ElementEdges(from, elements), old(named))
      ensures changed == (old(changed) || named != old(named))
    {
      if from in named {
        for i := 0 to |elements|
          invariant from in named && old(named) <= named
          invariant changed == (old(changed) || named != old(named))
          invariant SweepEdges(ElementEdges(from, elements), old(named))
                 == SweepEdges(ElementEdges(from, elements[i..]), named)
        {
          var element := elements[i];
          assert elements[i..][0] == element && elements[i..][1..] == elements[i + 1..];
          if element.imported == "resolve" && element.local.Some? {
            assert ElementEdges(from, elements[i..])[1..] == ElementEdges(from, elements[i + 1..]);
            Add(element.local.value);
          } else {
            assert ElementEdges(from, elements[i..]) == ElementEdges(from, elements[i + 1..]);
          }
        }
      } else {
        SilentElements(from, elements, named);
      }
    }

    method VisitOwn(n: Node)
      modifies this
      ensures named == SweepEdges(OwnEdges(n), old(named))
      ensures changed == (old(changed) || named != old(named))
    {
      if OwnEdges(n) != [] && !(n.VarDecl? && n.pattern.ObjectPattern?) {
        SweepOne(Holds, Target, OwnEdges(n)[0], named);
      }
      if n.VarDecl? && n.pattern.Name? {
        if (n.init.Prop? || n.init.Ident?) && TextOf(n.init) in named {
          Add(n.pattern.name);
        }
      } else if n.VarDecl? && n.pattern.ObjectPattern? {
        VisitElements(TextOf(n.init) + ".resolve", n.pattern.elements);
      } else if n.Assign? && n.left.Ident? && (n.right.Prop? || n.right.Ident?) && TextOf(n.right) in named {
        Add(n.left.name);
      }
    }

    method Visit(n: Node)
      modifies this
      ensures named == SweepEdges(Edges(n), old(named))
      ensures changed == (old(changed) || named != old(named))
      decreases n, 1
    {
      hide OwnEdges, Children, Sweep;
      VisitOwn(n);
      SweepGrows(Holds, Target, OwnEdges(n), old(named));
      SweepConcat(Holds, Target, OwnEdges(n), EdgesFrom(n, 0), old(named));
      var children := Children(n);
      for k := 0 to |children|
        invariant old(named) <= named && changed == (old(changed) || named != old(named))
        invariant SweepEdges(Edges(n), old(named)) == SweepEdges(EdgesFrom(n, k), named)
      {
        SweepConcat(Holds, Target, Edges(children[k]), EdgesFrom(n, k + 1), named);
        SweepGrows(Holds, Target, Edges(children[k]), named);
        Visit(children[k]);
      }
      SweepNone(Holds, Target, named);
    }
  }

  lemma {:induction false} SilentElements(from: string, elements: seq<Element>, s: set<string>)
    requires from !in s
    ensures SweepEdges(ElementEdges(from, elements), s) == s
  {
    if elements != [] {
      SilentElements(from, elements[1..], s);
      var head := if elements[0].imported == "resolve" && elements[0].local.Some?
                  then [Edge(from, elements[0].local.value)] else [];
      SweepConcat(Holds, Target, head, ElementEdges(from, elements[1..]), s);
    }
  }

  /** The names of path.resolve in a file: the least set that contains the
      imported names and is closed under the file's aliases. */
  method ImportsResolve(imports: seq<Import>, file: Node) returns (named: set<string>)
    ensures IsLeast(Holds, Target, Edges(file), Seeds(imports), named)
  {
    hide Edges, Sweep, Closed, Targets, Holds;
    HoldsMonotone();
    var seed := Seeds(imports);
    var scan := new AliasScan(seed);
    scan.changed := true;
    ghost var bound := seed + Targets(Target, Edges(file));
    while scan.changed
      invariant seed <= scan.named <= bound
      invariant forall t: set<string> :: seed <= t && Closed(Holds, Target, Edges(file), t) ==> scan.named <= t
      invariant !scan.changed ==> Closed(Holds, Target, Edges(file), scan.named)
      decreases |bound - scan.named|, scan.changed
    {
      ghost var before := scan.named;
      scan.changed := false;
      scan.Visit(file);
      SweepGrows(Holds, Target, Edges(file), before);
      SweepBounded(Holds, Target, Edges(file), before, bound);
      forall t: set<string> | seed <= t && Closed(Holds, Target, Edges(file), t)
        ensures scan.named <= t
      {
        SweepStaysInside(Holds, Target, Edges(file), before, t);
      }
      if scan.named == before {
        StableIsClosed(Holds, Target, Edges(file), before);
      } else {
        SubsetSize(bound - scan.named, bound - before);
        assert exists x :: x in scan.named && x !in before;
      }
    }
    named := scan.named;
  }

  // ---------------------------------------------------------------------
  // What the least set contains
  // ---------------------------------------------------------------------

  /** A chain of aliases that starts at an imported name. */
  ghost predicate IsChain(edges: seq<Edge>, seed: set<string>, chain: seq<string>) {
    && chain != [] && chain[0] in seed
    && forall k :: 0 < k < |chain| ==> Edge(chain[k - 1], chain[k]) in edges
  }

  lemma {:induction false} ChainStaysInside(edges: seq<Edge>, seed: set<string>, chain: seq<string>, s: set<string>)
    requires IsChain(edges, seed, chain) && seed <= s && Closed(Holds, Target, edges, s)
    ensures chain[|chain| - 1] in s
  {
    if |chain| > 1 {
      var init := chain[..|chain| - 1];
      ChainStaysInside(edges, seed, init, s);
      var e := Edge(chain[|chain| - 2], chain[|chain| - 1]);
      assert e in edges;
      var i :| 0 <= i < |edges| && edges[i] == e;
      assert Holds(edges[i], s);
    }
  }

  ghost predicate Linked(edges: seq<Edge>, seed: set<string>, x: string) {
    exists chain :: IsChain(edges, seed, chain) && chain[|chain| - 1] == x
  }

  lemma LinkedSeed(edges: seq<Edge>, seed: set<string>, x: string)
    requires x in seed
    ensures Linked(edges, seed, x)
  {
    assert IsChain(edges, seed, [x]) && [x][|[x]| - 1] == x;
  }

  lemma LinkedStep(edges: seq<Edge>, seed: set<string>, e: Edge)
    requires e in edges && Linked(edges, seed, e.from)
    ensures Linked(edges, seed, e.to)
  {
    var chain :| IsChain(edges, seed, chain) && chain[|chain| - 1] == e.from;
    var longer := chain + [e.to];
    assert Edge(e.from, e.to) == e;
    assert IsChain(edges, seed, longer) && longer[|longer| - 1] == e.to;
  }

  lemma LinkedInside(edges: seq<Edge>, seed: set<string>, s: set<string>, x: string)
    requires seed <= s && Closed(Holds, Target, edges, s) && Linked(edges, seed, x)
    ensures x in s
  {
    var chain :| IsChain(edges, seed, chain) && chain[|chain| - 1] == x;
    ChainStaysInside(edges, seed, chain, s);
  }

  /** A name denotes path.resolve exactly when an alias chain links it to an import. */
  lemma ChainsExact(edges: seq<Edge>, seed: set<string>, s: set<string>, x: string)
    requires IsLeast(Holds, Target, edges, seed, s)
    ensures x in s <==> Linked(edges, seed, x)
  {
    hide Linked;
    var linked := set y | y in s && Linked(edges, seed, y);
    forall y | y in seed
      ensures y in linked
    {
      LinkedSeed(edges, seed, y);
    }
    forall i | 0 <= i < |edges| && Holds(edges[i], linked)
      ensures Target(edges[i]) in linked
    {
      LinkedStep(edges, seed, edges[i]);
      assert Holds(edges[i], s);
    }
    assert s <= linked;
    if Linked(edges, seed, x) {
      LinkedInside(edges, seed, s, x);
    }
  }
}
