/** The structural extraction done by `parseFile`: a Babel traversal of a
    module's syntax tree whose visitor callbacks record imports, exports,
    components, hook calls and the presence of JSX. The parser itself is
    foreign code: its output is an input here, as a small closed syntax
    tree, and the traversal is its pre-order walk. */
module AstParser {
  import opened Wrappers
  import opened Strings

  /** The three kinds of binding an import declaration can introduce. */
  datatype ImportBinding =
    | DefaultBinding(local: string)                   // import X from "m"
    | NamedBinding(imported: string, local: string)   // import { a as b } from "m"
    | NamespaceBinding(local: string)                 // import * as N from "m"

  /** The syntax tree, reduced to the node kinds the visitor inspects. A
      TypeScript declaration that names something (an interface, a type
      alias, an enum, a `declare function`) is `TypeDeclaration`, since the
      export callbacks read its `id`. Every other kind of node is `Other`,
      which keeps only its children. */
  datatype Node =
    | ImportDeclaration(source: string, bindings: seq<ImportBinding>)
    | ExportDefaultDeclaration(declaration: Option<Node>)
    | ExportNamedDeclaration(declaration: Option<Node>, exported: seq<string>)
    | FunctionDeclaration(id: Option<string>, body: seq<Node>)
    | FunctionExpression(id: Option<string>, body: seq<Node>)
    | ArrowFunctionExpression(body: seq<Node>)
    | ClassDeclaration(id: Option<string>, body: seq<Node>)
    | VariableDeclaration(declarations: seq<Node>)
    | VariableDeclarator(name: string, init: Option<Node>)
    | CallExpression(callee: Node, arguments: seq<Node>)
    | MemberExpression(object: Node, property: Node)
    | Identifier(name: string)
    | JSXElement(children: seq<Node>)
    | JSXFragment(children: seq<Node>)
    | TypeDeclaration(id: Option<string>, children: seq<Node>)
    | Other(children: seq<Node>)

  /** The order in which the traversal enters the nodes: each node, then
      its children in order. */
  function PreOrder(nodes: seq<Node>): (r: seq<Node>)
    ensures |r| >= |nodes|
    ensures forall n :: n in nodes ==> n in r
    decreases nodes
  {
    if nodes == [] then [] else PreOrderNode(nodes[0]) + PreOrder(nodes[1..])
  }

  function PreOrderNode(n: Node): (r: seq<Node>)
    ensures |r| >= 1 && r[0] == n
    decreases n
  {
    [n] +
    match n
    case ImportDeclaration(_, _) => []
    case ExportDefaultDeclaration(d) => (match d case None => [] case Some(x) => PreOrderNode(x))
    case ExportNamedDeclaration(d, _) => (match d case None => [] case Some(x) => PreOrderNode(x))
    case FunctionDeclaration(_, body) => PreOrder(body)
    case FunctionExpression(_, body) => PreOrder(body)
    case ArrowFunctionExpression(body) => PreOrder(body)
    case ClassDeclaration(_, body) => PreOrder(body)
    case VariableDeclaration(ds) => PreOrder(ds)
    case VariableDeclarator(_, init) => (match init case None => [] case Some(x) => PreOrderNode(x))
    case CallExpression(callee, args) => PreOrderNode(callee) + PreOrder(args)
    case MemberExpression(o, p) => PreOrderNode(o) + PreOrderNode(p)
    case Identifier(_) => []
    case JSXElement(cs) => PreOrder(cs)
    case JSXFragment(cs) => PreOrder(cs)
    case TypeDeclaration(_, cs) => PreOrder(cs)
    case Other(cs) => PreOrder(cs)
  }

  predicate IsJSX(n: Node)
  {
    n.JSXElement? || n.JSXFragment?
  }

  /** Some JSX element or fragment occurs among `nodes` or below them. */
  predicate ContainsJSX(nodes: seq<Node>)
  {
    exists m :: m in PreOrder(nodes) && IsJSX(m)
  }

  /** The `id` of a declaration or function, when it has one. */
  function DeclId(n: Node): Option<string>
  {
    match n
    case FunctionDeclaration(id, _) => id
    case FunctionExpression(id, _) => id
    case ClassDeclaration(id, _) => id
    case TypeDeclaration(id, _) => id
    case _ => None
  }

  /** The `body` of a function or class, when it has one. */
  function Body(n: Node): Option<seq<Node>>
  {
    match n
    case FunctionDeclaration(_, b) => Some(b)
    case FunctionExpression(_, b) => Some(b)
    case ArrowFunctionExpression(b) => Some(b)
    case ClassDeclaration(_, b) => Some(b)
    case _ => None
  }

  /** `isReactComponent`: a body, an id (or a function expression), a
      non-empty name whose first character is unchanged by upper-casing,
      and JSX somewhere inside. */
  function IsReactComponent(n: Node): (r: bool)
    ensures r ==> DeclId(n).Some? && DeclId(n).value != ""
    ensures r ==> UpperAscii(DeclId(n).value[0]) == DeclId(n).value[0]
    ensures r ==> Body(n).Some? && ContainsJSX(Body(n).value)
    ensures n.ArrowFunctionExpression? ==> !r
    ensures r <== Body(n).Some? && DeclId(n).Some? && DeclId(n).value != ""
                  && UpperAscii(DeclId(n).value[0]) == DeclId(n).value[0]
                  && ContainsJSX(Body(n).value)
  {
    if Body(n).None? then false
    else if DeclId(n).None? && !n.FunctionExpression? then false
    else
      match DeclId(n)
      case None => false
      case Some(name) =>
        if name == "" then false
        else if name[0] != UpperAscii(name[0]) then false
        else ContainsJSX(Body(n).value)
  }

  /** `extractExportName` for an `export default` whose declaration is `d`. */
  function ExtractExportName(d: Option<Node>): (r: Option<string>)
    ensures r.None? <==> d.None?
    ensures d.Some? && DeclId(d.value).Some? ==> r == DeclId(d.value)
    ensures d.Some? && d.value.Identifier? ==> r == Some(d.value.name)
    ensures d.Some? && d.value.ArrowFunctionExpression? ==> r == Some("AnonymousComponent")
    ensures d.Some? && DeclId(d.value).None? && !d.value.ArrowFunctionExpression? && !d.value.Identifier? ==>
              r == Some("UnknownDefaultExport")
  {
    match d
    case None => None
    case Some(x) =>
      if DeclId(x).Some? then Some(DeclId(x).value)
      else if x.ArrowFunctionExpression? then Some("AnonymousComponent")
      else if x.Identifier? then Some(x.name)
      else Some("UnknownDefaultExport")
  }

  // ---- What the visitor records ----

  /** One entry of an import record's `specifiers`; a namespace binding has no `imported`. */
  datatype Specifier = Specifier(kind: string, imported: Option<string>, local: string)

  datatype ImportRecord = ImportRecord(source: string, specifiers: seq<Specifier>)

  /** An entry of `exports`: `kind` is "default" or "named", `name` may be null. */
  datatype ExportRecord = ExportRecord(kind: string, name: Option<string>)

  function SpecifierOf(b: ImportBinding): (s: Specifier)
    ensures s.local == b.local
    ensures b.DefaultBinding? <==> s.kind == "default"
    ensures b.DefaultBinding? ==> s.imported == Some("default")
    ensures b.NamedBinding? ==> s.kind == "named" && s.imported == Some(b.imported)
    ensures b.NamespaceBinding? <==> s.imported.None?
  {
    match b
    case DefaultBinding(l) => Specifier("default", Some("default"), l)
    case NamedBinding(i, l) => Specifier("named", Some(i), l)
    case NamespaceBinding(l) => Specifier("namespace", None, l)
  }

  /** The `forEach` over an import declaration's bindings. */
  function Specifiers(bs: seq<ImportBinding>): (ss: seq<Specifier>)
    ensures |ss| == |bs|
    ensures forall i :: 0 <= i < |bs| ==> ss[i] == SpecifierOf(bs[i])
  {
    if bs == [] then [] else Specifiers(bs[..|bs| - 1]) + [SpecifierOf(bs[|bs| - 1])]
  }

  /** The `ImportDeclaration` callback's contribution to `imports`. */
  function ImportsOf(n: Node): seq<ImportRecord>
  {
    match n
    case ImportDeclaration(src, bs) => [ImportRecord(src, Specifiers(bs))]
    case _ => []
  }

  /** The `ExportDefaultDeclaration` and `ExportNamedDeclaration` callbacks'
      contribution to `exports`. */
  function ExportsOf(n: Node): seq<ExportRecord>
  {
    match n
    case ExportDefaultDeclaration(d) => [ExportRecord("default", ExtractExportName(d))]
    case ExportNamedDeclaration(d, names) =>
      (if d.Some? && DeclId(d.value).Some? then [ExportRecord("named", DeclId(d.value))] else [])
      + NamedExports(names)
    case _ => []
  }

  /** The `forEach` over an export declaration's specifiers. */
  function NamedExports(names: seq<string>): (es: seq<ExportRecord>)
    ensures |es| == |names|
    ensures forall i :: 0 <= i < |names| ==> es[i] == ExportRecord("named", Some(names[i]))
  {
    if names == [] then [] else NamedExports(names[..|names| - 1]) + [ExportRecord("named", Some(names[|names| - 1]))]
  }

  /** An exported TypeScript interface, type alias or enum is recorded
      under its own name, as a named and as a default export. */
  lemma TypeExportsRecordName(x: string, cs: seq<Node>, names: seq<string>)
    ensures ExportsOf(ExportNamedDeclaration(Some(TypeDeclaration(Some(x), cs)), names))
              == [ExportRecord("named", Some(x))] + NamedExports(names)
    ensures ExportsOf(ExportDefaultDeclaration(Some(TypeDeclaration(Some(x), cs))))
              == [ExportRecord("default", Some(x))]
  {
  }

  /** The `FunctionDeclaration` and `VariableDeclarator` callbacks'
      contribution to `components`. */
  function ComponentsOf(n: Node): seq<string>
  {
    match n
    case FunctionDeclaration(id, _) =>
      if IsReactComponent(n) then [id.value] else []
    case VariableDeclarator(name, init) =>
      if init.Some? && (init.value.ArrowFunctionExpression? || init.value.FunctionExpression?)
         && IsReactComponent(init.value)
      then [name] else []
    case _ => []
  }

  predicate IsHookCall(n: Node)
  {
    n.CallExpression? && n.callee.Identifier? && StartsWith(n.callee.name, "use")
  }

  /** The `CallExpression` callback's contribution to `hooks`. */
  function HooksOf(n: Node): (hs: seq<string>)
    ensures IsHookCall(n) ==> hs == [n.callee.name]
    ensures !IsHookCall(n) ==> hs == []
  {
    match n
    case CallExpression(Identifier(name), _) => if StartsWith(name, "use") then [name] else []
    case _ => []
  }

  /** The contributions of `f` over visited nodes, in visit order. */
  function Collect<T>(nodes: seq<Node>, f: Node -> seq<T>): seq<T>
  {
    if nodes == [] then [] else Collect(nodes[..|nodes| - 1], f) + f(nodes[|nodes| - 1])
  }

  lemma CollectStep<T>(nodes: seq<Node>, i: nat, f: Node -> seq<T>)
    requires i < |nodes|
    ensures Collect(nodes[..i + 1], f) == Collect(nodes[..i], f) + f(nodes[i])
  {
    assert nodes[..i + 1][..i] == nodes[..i];
  }

  /** The number of nodes satisfying `p`. */
  function CountNodes(nodes: seq<Node>, p: Node -> bool): nat
  {
    if nodes == [] then 0 else CountNodes(nodes[..|nodes| - 1], p) + (if p(nodes[|nodes| - 1]) then 1 else 0)
  }

  /** The object `parseFile` resolves to. */
  datatype FileSummary = FileSummary(
    filePath: string,
    imports: seq<ImportRecord>,
    exports: seq<ExportRecord>,
    hasJSX: bool,
    components: seq<string>,
    hooks: seq<string>,
    raw: string)

  /** A parse result as the command line hands it on: with the file's path
      relative to the source root attached ("" when absent). */
  datatype ParsedFile = ParsedFile(relativeToSrc: string, ast: FileSummary)

  /** A node a callback ignores adds nothing to what that callback records. */
  lemma AppendNothing(acc: FileSummary, n: Node)
    ensures ImportsOf(n) == [] ==> acc.imports + ImportsOf(n) == acc.imports
    ensures ExportsOf(n) == [] ==> acc.exports + ExportsOf(n) == acc.exports
    ensures ComponentsOf(n) == [] ==> acc.components + ComponentsOf(n) == acc.components
    ensures HooksOf(n) == [] ==> acc.hooks + HooksOf(n) == acc.hooks
  {
  }

  /** The visitor callbacks for one node, applied to the result so far. */
  method VisitNode(n: Node, acc: FileSummary) returns (r: FileSummary)
    ensures r.filePath == acc.filePath && r.raw == acc.raw
    ensures r.imports == acc.imports + ImportsOf(n)
    ensures r.exports == acc.exports + ExportsOf(n)
    ensures r.components == acc.components + ComponentsOf(n)
    ensures r.hooks == acc.hooks + HooksOf(n)
    ensures r.hasJSX == (acc.hasJSX || IsJSX(n))
  {
    r := acc;
    AppendNothing(acc, n);
    match n {
      case ImportDeclaration(src, bs) =>
        r := r.(imports := r.imports + [ImportRecord(src, Specifiers(bs))]);
      case JSXElement(_) =>
        r := r.(hasJSX := true);
      case JSXFragment(_) =>
        r := r.(hasJSX := true);
      case ExportDefaultDeclaration(d) =>
        r := r.(exports := r.exports + [ExportRecord("default", ExtractExportName(d))]);
      case ExportNamedDeclaration(d, names) =>
        if d.Some? && DeclId(d.value).Some? {
          r := r.(exports := r.exports + [ExportRecord("named", DeclId(d.value))]);
        }
        r := r.(exports := r.exports + NamedExports(names));
      case FunctionDeclaration(id, _) =>
        if IsReactComponent(n) {
          r := r.(components := r.components + [id.value]);
        }
      case VariableDeclarator(name, init) =>
        if init.Some? && (init.value.ArrowFunctionExpression? || init.value.FunctionExpression?) {
          if IsReactComponent(init.value) {
            r := r.(components := r.components + [name]);
          }
        }
      case CallExpression(callee, _) =>
        if callee.Identifier? && StartsWith(callee.name, "use") {
          r := r.(hooks := r.hooks + [callee.name]);
        }
      case _ =>
    }
  }

  /** `parseFile(filePath)` for the file contents `code`: `program` is what
      the parser made of it, `None` when it threw a syntax error. The
      traversal runs every callback on each node in visit order. */
  method ParseFile(filePath: string, code: string, program: Option<seq<Node>>) returns (r: Result<FileSummary>)
    ensures r.Err? <==> program.None?
    ensures r.Ok? ==> r.value.filePath == filePath && r.value.raw == code
    ensures r.Ok? ==> r.value.imports == Collect(PreOrder(program.value), ImportsOf)
    ensures r.Ok? ==> r.value.exports == Collect(PreOrder(program.value), ExportsOf)
    ensures r.Ok? ==> r.value.components == Collect(PreOrder(program.value), ComponentsOf)
    ensures r.Ok? ==> r.value.hooks == Collect(PreOrder(program.value), HooksOf)
    ensures r.Ok? ==> (r.value.hasJSX <==> ContainsJSX(program.value))
  {
    if program.None? {
      return Err("syntax error in " + filePath);
    }
    var nodes := PreOrder(program.value);
    var acc := FileSummary(filePath, [], [], false, [], [], code);
    var i := 0;
    while i < |nodes|
      invariant 0 <= i <= |nodes|
      invariant acc.filePath == filePath && acc.raw == code
      invariant acc.imports == Collect(nodes[..i], ImportsOf)
      invariant acc.exports == Collect(nodes[..i], ExportsOf)
      invariant acc.components == Collect(nodes[..i], ComponentsOf)
      invariant acc.hooks == Collect(nodes[..i], HooksOf)
      invariant acc.hasJSX <==> exists j :: 0 <= j < i && IsJSX(nodes[j])
    {
      CollectStep(nodes, i, ImportsOf);
      CollectStep(nodes, i, ExportsOf);
      CollectStep(nodes, i, ComponentsOf);
      CollectStep(nodes, i, HooksOf);
      acc := VisitNode(nodes[i], acc);
      i := i + 1;
    }
    assert nodes[..i] == nodes;
    assert acc.hasJSX <==> exists m :: m in nodes && IsJSX(m);
    return Ok(acc);
  }

  // ---- Properties of the extraction ----

  /** Visiting one stretch of nodes after another concatenates what is recorded. */
  lemma {:induction false} CollectAppend<T>(a: seq<Node>, b: seq<Node>, f: Node -> seq<T>)
    ensures Collect(a + b, f) == Collect(a, f) + Collect(b, f)
    decreases |b|
  {
    if b == [] {
      assert a + b == a;
    } else {
      assert (a + b)[..|a + b| - 1] == a + b[..|b| - 1];
      CollectAppend(a, b[..|b| - 1], f);
    }
  }

  /** Something is recorded exactly when some visited node contributes it. */
  lemma {:induction false} CollectMember<T>(nodes: seq<Node>, f: Node -> seq<T>, x: T)
    ensures x in Collect(nodes, f) <==> exists i :: 0 <= i < |nodes| && x in f(nodes[i])
  {
    if nodes != [] {
      var init := nodes[..|nodes| - 1];
      CollectMember(init, f, x);
      if x in Collect(init, f) {
        var i :| 0 <= i < |init| && x in f(init[i]);
        assert nodes[i] == init[i];
      }
      if exists i :: 0 <= i < |nodes| && x in f(nodes[i]) {
        var i :| 0 <= i < |nodes| && x in f(nodes[i]);
        if i < |init| { assert init[i] == nodes[i]; }
      }
    }
  }

  /** One record per node `p` picks out, when each of them contributes one
      record and the others none. */
  lemma {:induction false} CollectLength<T>(nodes: seq<Node>, f: Node -> seq<T>, p: Node -> bool)
    requires forall n :: |f(n)| == if p(n) then 1 else 0
    ensures |Collect(nodes, f)| == CountNodes(nodes, p)
  {
    if nodes != [] {
      CollectLength(nodes[..|nodes| - 1], f, p);
    }
  }

  /** One import record per import declaration, in visit order. */
  lemma ImportsPerDeclaration(nodes: seq<Node>)
    ensures |Collect(nodes, ImportsOf)| == CountNodes(nodes, (n: Node) => n.ImportDeclaration?)
  {
    CollectLength(nodes, ImportsOf, (n: Node) => n.ImportDeclaration?);
  }

  /** One hook entry per call of a bare identifier starting with "use",
      repeated calls included. */
  lemma HooksPerCall(nodes: seq<Node>)
    ensures |Collect(nodes, HooksOf)| == CountNodes(nodes, IsHookCall)
  {
    CollectLength(nodes, HooksOf, IsHookCall);
  }

  /** Every recorded hook is the callee name of a visited hook call, and
      every visited hook call is recorded. */
  lemma HooksAreCallees(nodes: seq<Node>, h: string)
    ensures h in Collect(nodes, HooksOf) <==>
            exists i :: 0 <= i < |nodes| && IsHookCall(nodes[i]) && nodes[i].callee.name == h
  {
    CollectMember(nodes, HooksOf, h);
  }

  /** A call through a member expression (`React.useState()`) is no hook call. */
  lemma MemberCallIsNoHook(o: Node, p: Node, args: seq<Node>)
    ensures HooksOf(CallExpression(MemberExpression(o, p), args)) == []
  {
  }

  /** An arrow function is never a component: `const Hero = () => <div/>`
      records nothing. */
  lemma ArrowDeclaratorIsNoComponent(name: string, body: seq<Node>)
    ensures ComponentsOf(VariableDeclarator(name, Some(ArrowFunctionExpression(body)))) == []
  {
  }

  /** A declarator initialised by a qualifying function expression records
      the declarator's name, not the function's own. */
  lemma DeclaratorRecordsItsOwnName(name: string, fname: string, body: seq<Node>)
    requires IsReactComponent(FunctionExpression(Some(fname), body))
    ensures ComponentsOf(VariableDeclarator(name, Some(FunctionExpression(Some(fname), body)))) == [name]
  {
  }

  /** `export const X = ...` records only its specifiers, not `X`. */
  lemma ExportConstRecordsNoName(declarators: seq<Node>, names: seq<string>)
    ensures |ExportsOf(ExportNamedDeclaration(Some(VariableDeclaration(declarators)), names))| == |names|
  {
  }

  /** `export default function () {}` has no id and is no arrow or identifier. */
  lemma AnonymousDefaultFunction(body: seq<Node>)
    ensures ExtractExportName(Some(FunctionDeclaration(None, body))) == Some("UnknownDefaultExport")
    ensures ExtractExportName(Some(ArrowFunctionExpression(body))) == Some("AnonymousComponent")
  {
  }
}
