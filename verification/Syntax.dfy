/** The part of the TypeScript syntax tree that the path-identity gate reads. */
module Syntax {
  import opened Text

  /** `text` is the node's source text. `Wrap` is a parenthesis, a type
      assertion or a non-null mark; `Other` is any node the gate only descends
      through; `Function` is anything function-like. */
  datatype Node =
    | Ident(name: string)
    | Prop(text: string, base: Node, name: string)
    | Elem(text: string, base: Node, literal: Option<string>, index: Node)
    | Call(text: string, callee: Node, args: seq<Node>)
    | Wrap(text: string, inner: Node)
    | Cond(text: string, test: Node, whenTrue: Node, whenFalse: Node)
    | Object(text: string, properties: seq<Property>)
    | Assign(text: string, left: Node, right: Node)
    | VarDecl(text: string, pattern: Pattern, init: Node)
    | Function(text: string, params: set<string>, body: seq<Node>)
    | Other(text: string, nodes: seq<Node>)

  datatype Property =
    | KeyValue(name: string, value: Node)
    | Shorthand(name: string)
    | OtherProperty(value: Node)

  /** Binding patterns; `defaults` are the initializers inside the pattern. */
  datatype Pattern =
    | Name(name: string)
    | ObjectPattern(elements: seq<Element>, defaults: seq<Node>)
    | ArrayPattern(defaults: seq<Node>)

  /** `{ imported: local }`; local is None when it is a nested pattern. */
  datatype Element = Element(imported: string, local: Option<string>)

  function TextOf(n: Node): string {
    if n.Ident? then n.name else n.text
  }

  function Values(properties: seq<Property>): (r: seq<Node>)
    ensures forall i :: 0 <= i < |r| ==>
      exists j :: 0 <= j < |properties| && !properties[j].Shorthand? && r[i] == properties[j].value
  {
    if properties == [] then []
    else if properties[0].Shorthand? then Values(properties[1..])
    else [properties[0].value] + Values(properties[1..])
  }

  function Defaults(p: Pattern): seq<Node> {
    if p.Name? then [] else p.defaults
  }

  /** The child nodes, in the order in which the compiler visits them. */
  function Children(n: Node): (r: seq<Node>)
    ensures forall i :: 0 <= i < |r| ==> r[i] < n
  {
    match n
    case Ident(_) => []
    case Prop(_, base, _) => [base]
    case Elem(_, base, _, index) => [base, index]
    case Call(_, callee, args) => [callee] + args
    case Wrap(_, inner) => [inner]
    case Cond(_, test, whenTrue, whenFalse) => [test, whenTrue, whenFalse]
    case Object(_, properties) => Values(properties)
    case Assign(_, left, right) => [left, right]
    case VarDecl(_, pattern, init) => Defaults(pattern) + [init]
    case Function(_, _, body) => body
    case Other(_, nodes) => nodes
  }

  // ---------------------------------------------------------------------
  // The tree as a relation
  // ---------------------------------------------------------------------

  /** c is a direct part of n that the compiler visits. */
  ghost predicate ChildOf(n: Node, c: Node) {
    match n
    case Ident(_) => false
    case Prop(_, base, _) => c == base
    case Elem(_, base, _, index) => c == base || c == index
    case Call(_, callee, args) => c == callee || c in args
    case Wrap(_, inner) => c == inner
    case Cond(_, test, whenTrue, whenFalse) => c == test || c == whenTrue || c == whenFalse
    case Object(_, properties) =>
      exists p :: p in properties && (p == OtherProperty(c) || (p.KeyValue? && p.value == c))
    case Assign(_, left, right) => c == left || c == right
    case VarDecl(_, pattern, init) =>
      c == init || (pattern.ObjectPattern? && c in pattern.defaults) || (pattern.ArrayPattern? && c in pattern.defaults)
    case Function(_, _, body) => c in body
    case Other(_, nodes) => c in nodes
  }

  lemma {:induction false} ValuesMeaning(properties: seq<Property>, c: Node)
    ensures c in Values(properties) <==>
      exists p :: p in properties && (p == OtherProperty(c) || (p.KeyValue? && p.value == c))
    decreases |properties|
  {
    if properties != [] {
      var p := properties[0];
      ValuesMeaning(properties[1..], c);
      assert properties == [p] + properties[1..];
      assert forall q :: q in properties <==> q == p || q in properties[1..];
    }
  }

  /** The children are exactly the direct parts. */
  lemma ChildrenMeaning(n: Node, c: Node)
    ensures c in Children(n) <==> ChildOf(n, c)
  {
    if n.Object? {
      ValuesMeaning(n.properties, c);
    }
  }

  /** A chain of nodes, each a direct part of the one before. With `open`, no
      function is entered after the first node. */
  ghost predicate IsPath(path: seq<Node>, open: bool) {
    && path != []
    && (forall i :: 0 < i < |path| ==> ChildOf(path[i - 1], path[i]))
    && (open ==> forall i :: 0 < i < |path| ==> !path[i].Function?)
  }

  ghost predicate PathBetween(path: seq<Node>, open: bool, top: Node, n: Node) {
    IsPath(path, open) && path[0] == top && path[|path| - 1] == n
  }

  ghost predicate Reaches(open: bool, top: Node, n: Node) {
    exists path :: PathBetween(path, open, top, n)
  }

  /** n is top or lies below it. */
  ghost predicate Below(top: Node, n: Node) {
    Reaches(false, top, n)
  }

  /** n belongs to the scope that top opens: below it, in no nested function. */
  ghost predicate InScope(top: Node, n: Node) {
    Reaches(true, top, n)
  }

  lemma ReachesSelf(open: bool, n: Node)
    ensures Reaches(open, n, n)
  {
    assert PathBetween([n], open, n, n);
  }

  lemma ReachesThrough(open: bool, top: Node, c: Node, n: Node)
    requires ChildOf(top, c) && (open ==> !c.Function?) && Reaches(open, c, n)
    ensures Reaches(open, top, n)
  {
    var path :| PathBetween(path, open, c, n);
    var longer := [top] + path;
    assert forall i :: 0 < i < |longer| ==> longer[i] == path[i - 1];
    assert PathBetween(longer, open, top, n);
  }

  lemma ReachesSplit(open: bool, top: Node, n: Node)
    requires Reaches(open, top, n) && n != top
    ensures exists c :: ChildOf(top, c) && (open ==> !c.Function?) && Reaches(open, c, n)
  {
    var path :| PathBetween(path, open, top, n);
    var rest := path[1..];
    assert forall i :: 0 < i < |rest| ==> rest[i] == path[i + 1] && rest[i - 1] == path[i];
    assert PathBetween(rest, open, path[1], n);
    assert ChildOf(top, path[1]);
  }
}
