/** What it means for a name to denote path.resolve, in terms of the imports
    and the syntax tree of a file. */
module AliasMeaning {
  import opened Text
  import opened Syntax
  import opened Propagation
  import opened ResolveAliases

  // ---------------------------------------------------------------------
  // Imports
  // ---------------------------------------------------------------------

  /** A path module, or one of its two platform variants. */
  ghost predicate IsPathModule(m: string) {
    || m == "path" || m == "node:path"
    || m == "path/posix" || m == "node:path/posix" || m == "path/win32" || m == "node:path/win32"
  }

  /** Through a namespace: `name.resolve`, and for the plain path modules also
      the platform variants. */
  ghost predicate ThroughNamespace(name: string, m: string, x: string) {
    || x == name + ".resolve"
    || ((m == "path" || m == "node:path") && (x == name + ".posix.resolve" || x == name + ".win32.resolve"))
  }

  /** The import makes x denote path.resolve. */
  ghost predicate ImportGives(i: Import, x: string) {
    && IsPathModule(i.from)
    && match i
       case ImportEquals(name, from) => ThroughNamespace(name, from, x)
       case ImportNames(from, default, namespace, names) =>
         || (exists name :: default == Some(name) && ThroughNamespace(name, from, x))
         || (exists name :: namespace == Some(name) && ThroughNamespace(name, from, x))
         || (namespace == None && exists n :: n in names && n.local == x && (n.imported == Some("resolve") || x == "resolve"))
  }

  lemma {:induction false} SeedsMeaning(imports: seq<Import>, x: string)
    ensures x in Seeds(imports) <==> exists i :: i in imports && ImportGives(i, x)
    decreases |imports|
  {
    hide ImportGives;
    if imports != [] {
      SeedsMeaning(imports[1..], x);
      OneImport(imports, x);
      assert forall i :: i in imports <==> i == imports[0] || i in imports[1..];
    }
  }

  lemma OneImport(imports: seq<Import>, x: string)
    requires imports != []
    ensures x in Seeds(imports) <==> ImportGives(imports[0], x) || x in Seeds(imports[1..])
  {
    hide Namespace, ThroughNamespace, IsPathModule;
    var i := imports[0];
    PathModuleMeaning(i.from);
    forall name
      ensures x in Namespace(name, i.from) <==> ThroughNamespace(name, i.from, x)
    {
      NamespaceMeaning(name, i.from, x);
    }
    if i.ImportNames? {
      LocalsMeaning(i.names, x);
    }
  }

  lemma PathModuleMeaning(m: string)
    ensures m in PATH_MODULES <==> IsPathModule(m)
  {
  }

  lemma NamespaceMeaning(name: string, m: string, x: string)
    ensures x in Namespace(name, m) <==> ThroughNamespace(name, m, x)
  {
  }

  lemma LocalsMeaning(names: seq<NamedImport>, x: string)
    ensures x in (set k | 0 <= k < |names| && (names[k].imported == Some("resolve") || names[k].local == "resolve")
                    :: names[k].local)
      <==> exists n :: n in names && n.local == x && (n.imported == Some("resolve") || x == "resolve")
  {
  }

  // ---------------------------------------------------------------------
  // Aliases
  // ---------------------------------------------------------------------

  /** The expression is a name or property access with this text. */
  ghost predicate ReadsAs(e: Node, text: string) {
    e == Ident(text) || (e.Prop? && e.text == text)
  }

  /** The statement makes `to` another name of `from`. */
  ghost predicate Aliases(n: Node, from: string, to: string) {
    match n
    case VarDecl(_, Name(name), init) => name == to && ReadsAs(init, from)
    case VarDecl(_, ObjectPattern(elements, _), init) =>
      from == TextOf(init) + ".resolve" && Element("resolve", Some(to)) in elements
    case Assign(_, left, right) => left == Ident(to) && ReadsAs(right, from)
    case _ => false
  }

  lemma {:induction false} ElementsMeaning(from: string, elements: seq<Element>, e: Edge)
    ensures e in ElementEdges(from, elements) <==> e.from == from && Element("resolve", Some(e.to)) in elements
    decreases |elements|
  {
    if elements != [] {
      var first := elements[0];
      ElementsMeaning(from, elements[1..], e);
      if first.imported == "resolve" && first.local.Some? {
        assert first == Element("resolve", Some(first.local.value));
      }
      assert forall x :: x in elements <==> x == first || x in elements[1..];
    }
  }

  lemma OwnMeaning(n: Node, e: Edge)
    ensures e in OwnEdges(n) <==> Aliases(n, e.from, e.to)
  {
    if n.VarDecl? && n.pattern.ObjectPattern? {
      ElementsMeaning(TextOf(n.init) + ".resolve", n.pattern.elements, e);
    }
    if n.VarDecl? && n.init.Ident? {
      assert n.init == Ident(n.init.name);
    }
    if n.Assign? && n.left.Ident? {
      assert n.left == Ident(n.left.name);
    }
  }

  lemma {:induction false} EdgesMeaning(n: Node, e: Edge)
    ensures e in Edges(n) <==> exists m :: Below(n, m) && Aliases(m, e.from, e.to)
    decreases n, 1
  {
    hide Aliases, Reaches, ChildOf, OwnEdges, Children;
    OwnMeaning(n, e);
    ChildEdges(n, 0, e);
    ReachesSelf(false, n);
    if m :| Below(n, m) && Aliases(m, e.from, e.to) {
      if m != n {
        ReachesSplit(false, n, m);
        var c :| ChildOf(n, c) && Reaches(false, c, m);
        ChildrenMeaning(n, c);
        var j :| 0 <= j < |Children(n)| && Children(n)[j] == c;
        assert Below(Children(n)[j], m);
      }
    }
    if Aliases(n, e.from, e.to) {
      assert Below(n, n);
    }
    if j, m :| 0 <= j < |Children(n)| && Below(Children(n)[j], m) && Aliases(m, e.from, e.to) {
      ChildrenMeaning(n, Children(n)[j]);
      ReachesThrough(false, n, Children(n)[j], m);
      assert Below(n, m);
    }
  }

  lemma {:induction false} ChildEdges(n: Node, k: nat, e: Edge)
    requires k <= |Children(n)|
    ensures e in EdgesFrom(n, k) <==>
      exists j, m :: k <= j < |Children(n)| && Below(Children(n)[j], m) && Aliases(m, e.from, e.to)
    decreases n, 0, |Children(n)| - k
  {
    hide Aliases, Reaches, OwnEdges, Children;
    if k < |Children(n)| {
      ChildEdges(n, k + 1, e);
      EdgesMeaning(Children(n)[k], e);
    }
  }

  // ---------------------------------------------------------------------
  // The meaning of the result
  // ---------------------------------------------------------------------

  /** An import gives x, or some statement of the file aliases a known name. */
  ghost predicate Denotes(imports: seq<Import>, file: Node, s: set<string>, x: string) {
    || (exists i :: i in imports && ImportGives(i, x))
    || (exists n, from :: Below(file, n) && Aliases(n, from, x) && from in s)
  }

  ghost predicate Saturated(imports: seq<Import>, file: Node, t: set<string>) {
    forall x :: Denotes(imports, file, t, x) ==> x in t
  }

  lemma SaturatedIsClosed(imports: seq<Import>, file: Node, t: set<string>)
    ensures Saturated(imports, file, t) <==> Seeds(imports) <= t && Closed(Holds, Target, Edges(file), t)
  {
    hide ImportGives, Aliases, Reaches, Edges, Seeds;
    forall x
      ensures x in Seeds(imports) <==> exists i :: i in imports && ImportGives(i, x)
    {
      SeedsMeaning(imports, x);
    }
    forall e
      ensures e in Edges(file) <==> exists m :: Below(file, m) && Aliases(m, e.from, e.to)
    {
      EdgesMeaning(file, e);
    }
    if Saturated(imports, file, t) {
      forall i | 0 <= i < |Edges(file)| && Holds(Edges(file)[i], t)
        ensures Target(Edges(file)[i]) in t
      {
        var e := Edges(file)[i];
        assert e in Edges(file);
        assert Denotes(imports, file, t, e.to);
      }
    }
    if Seeds(imports) <= t && Closed(Holds, Target, Edges(file), t) {
      forall n, from, x | Below(file, n) && Aliases(n, from, x) && from in t
        ensures x in t
      {
        assert Edge(from, x) in Edges(file);
        var i :| 0 <= i < |Edges(file)| && Edges(file)[i] == Edge(from, x);
        assert Holds(Edges(file)[i], t);
      }
    }
  }

  /** The names found are exactly those that an import gives or that alias a
      found name, and no smaller set has all of these. */
  lemma ImportsResolveMeaning(imports: seq<Import>, file: Node, s: set<string>)
    requires IsLeast(Holds, Target, Edges(file), Seeds(imports), s)
    ensures forall x :: x in s <==> Denotes(imports, file, s, x)
    ensures forall t: set<string> :: Saturated(imports, file, t) ==> s <= t
  {
    hide Denotes, Edges, Seeds;
    forall t: set<string>
      ensures Saturated(imports, file, t) <==> Seeds(imports) <= t && Closed(Holds, Target, Edges(file), t)
    {
      SaturatedIsClosed(imports, file, t);
    }
    forall x | x in s
      ensures Denotes(imports, file, s, x)
    {
      if !Denotes(imports, file, s, x) {
        WithoutIsSaturated(imports, file, s, x);
      }
    }
  }

  lemma WithoutIsSaturated(imports: seq<Import>, file: Node, s: set<string>, x: string)
    requires Saturated(imports, file, s) && !Denotes(imports, file, s, x)
    ensures Saturated(imports, file, s - {x})
  {
    hide ImportGives, Aliases, Reaches;
    forall y | Denotes(imports, file, s - {x}, y)
      ensures y in s - {x}
    {
      assert Denotes(imports, file, s, y);
    }
  }
}
