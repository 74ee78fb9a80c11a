/** `Analyzer`: classifies a project by the packages its package.json
    declares and proposes a navigation structure. Reading package.json is
    replaced by an optional parsed value. */
module Analyzer {
  import opened Wrappers
  import opened Strings

  /** The two dependency objects of package.json, as package name to
      version text; an absent object is an empty map. */
  datatype PackageJson = PackageJson(dependencies: map<string, string>, devDependencies: map<string, string>)

  /** `GlobalMigrationContext`. */
  datatype GlobalMigrationContext = GlobalMigrationContext(
    projectPath: string,
    techStack: string,
    styleSystem: string,
    packageJson: PackageJson,
    navigationStrategy: seq<string>)

  /** `{ ...dependencies, ...devDependencies }`: every package of either
      object; a package in both takes its development version. */
  function Deps(pkg: PackageJson): (deps: map<string, string>)
    ensures forall name :: name in deps <==> name in pkg.dependencies || name in pkg.devDependencies
    ensures forall name :: name in pkg.devDependencies ==> deps[name] == pkg.devDependencies[name]
    ensures forall name :: name in pkg.dependencies && name !in pkg.devDependencies ==>
      deps[name] == pkg.dependencies[name]
  {
    pkg.dependencies + pkg.devDependencies
  }

  /** `deps[name]` is truthy: present with a non-empty version. */
  predicate Has(deps: map<string, string>, name: string)
  {
    name in deps && deps[name] != ""
  }

  /** The technologies `_detectTechStack` recognises, in the order it pushes them. */
  datatype Tech = Redux | Tailwind | TypeScript | Axios

  const DefaultStack := "React (Standard)"

  /** The name pushed on the stack. */
  function TechName(t: Tech): (name: string)
    ensures |name| > 0
  {
    match t
    case Redux => "Redux"
    case Tailwind => "Tailwind"
    case TypeScript => "TypeScript"
    case Axios => "Axios"
  }

  /** The packages whose presence reveals a technology. */
  function Packages(t: Tech): seq<string>
  {
    match t
    case Redux => ["react-redux", "@reduxjs/toolkit"]
    case Tailwind => ["tailwindcss"]
    case TypeScript => ["typescript"]
    case Axios => ["axios"]
  }

  predicate Uses(deps: map<string, string>, t: Tech)
  {
    exists i :: 0 <= i < |Packages(t)| && Has(deps, Packages(t)[i])
  }

  function Keep(deps: map<string, string>, t: Tech): seq<Tech>
  {
    if Uses(deps, t) then [t] else []
  }

  /** The technologies the project uses, in push order: each used one
      exactly once, none other. */
  function Detected(deps: map<string, string>): (found: seq<Tech>)
    ensures forall t :: t in found <==> Uses(deps, t)
    ensures forall i, j :: 0 <= i < j < |found| ==> Rank(found[i]) < Rank(found[j])
  {
    Keep(deps, Redux) + Keep(deps, Tailwind) + Keep(deps, TypeScript) + Keep(deps, Axios)
  }

  function Names(ts: seq<Tech>): (names: seq<string>)
    ensures |names| == |ts| && forall i :: 0 <= i < |ts| ==> names[i] == TechName(ts[i])
  {
    seq(|ts|, i requires 0 <= i < |ts| => TechName(ts[i]))
  }

  /** `_detectTechStack`: pushes Redux, Tailwind, TypeScript and Axios for
      the packages present, joins the stack with ", ", and falls back to
      "React (Standard)" when the join is empty. */
  method DetectTechStack(pkg: PackageJson) returns (techStack: string)
    ensures var found := Detected(Deps(pkg));
      && (found == [] ==> techStack == DefaultStack)
      && (found != [] ==> techStack == Join(Names(found), ", "))
  {
    var deps := Deps(pkg);
    var stack: seq<string> := [];
    ghost var found: seq<Tech> := [];
    if Has(deps, "react-redux") || Has(deps, "@reduxjs/toolkit") {
      NamesSnoc(found, Redux);
      stack, found := stack + ["Redux"], found + [Redux];
    }
    UsesTest(deps, Redux);
    assert found == Keep(deps, Redux);
    if Has(deps, "tailwindcss") {
      NamesSnoc(found, Tailwind);
      stack, found := stack + ["Tailwind"], found + [Tailwind];
    }
    UsesTest(deps, Tailwind);
    assert found == Keep(deps, Redux) + Keep(deps, Tailwind);
    if Has(deps, "typescript") {
      NamesSnoc(found, TypeScript);
      stack, found := stack + ["TypeScript"], found + [TypeScript];
    }
    UsesTest(deps, TypeScript);
    assert found == Keep(deps, Redux) + Keep(deps, Tailwind) + Keep(deps, TypeScript);
    if Has(deps, "axios") {
      NamesSnoc(found, Axios);
      stack, found := stack + ["Axios"], found + [Axios];
    }
    UsesTest(deps, Axios);
    assert found == Detected(deps) && stack == Names(found);
    var joined := Join(stack, ", ");
    if stack != [] {
      JoinNonEmpty(stack, ", ");
    }
    techStack := if joined != "" then joined else DefaultStack;
  }

  lemma NamesSnoc(ts: seq<Tech>, t: Tech)
    ensures Names(ts + [t]) == Names(ts) + [TechName(t)]
  {
  }

  /** `Uses` is the test `_detectTechStack` writes for each technology. */
  lemma UsesTest(deps: map<string, string>, t: Tech)
    ensures Uses(deps, t) <==> match t
      case Redux => Has(deps, "react-redux") || Has(deps, "@reduxjs/toolkit")
      case Tailwind => Has(deps, "tailwindcss")
      case TypeScript => Has(deps, "typescript")
      case Axios => Has(deps, "axios")
  {
    match t
    case Redux =>
      assert Packages(t)[0] == "react-redux" && Packages(t)[1] == "@reduxjs/toolkit";
    case Tailwind =>
      assert Packages(t)[0] == "tailwindcss";
    case TypeScript =>
      assert Packages(t)[0] == "typescript";
    case Axios =>
      assert Packages(t)[0] == "axios";
  }

  lemma {:induction false} JoinNonEmpty(parts: seq<string>, sep: string)
    requires parts != [] && parts[0] != ""
    ensures Join(parts, sep) != ""
  {
    JoinEnds(parts, sep);
  }

  /** Redux is on the stack exactly when react-redux or @reduxjs/toolkit
      is present in either dependency object. */
  lemma ReduxDetected(pkg: PackageJson)
    ensures Redux in Detected(Deps(pkg)) <==>
      Has(Deps(pkg), "react-redux") || Has(Deps(pkg), "@reduxjs/toolkit")
  {
    UsesTest(Deps(pkg), Redux);
  }

  /** Position in the push order. */
  function Rank(t: Tech): nat
  {
    match t
    case Redux => 0
    case Tailwind => 1
    case TypeScript => 2
    case Axios => 3
  }

  const NativeWind := "NativeWind"
  const StyleSheet := "StyleSheet"

  /** `_detectStyleSystem`: NativeWind exactly when tailwindcss or nativewind is present. */
  function DetectStyleSystem(pkg: PackageJson): (style: string)
    ensures style == NativeWind <==> Has(Deps(pkg), "tailwindcss") || Has(Deps(pkg), "nativewind")
    ensures style == NativeWind || style == StyleSheet
  {
    var deps := Deps(pkg);
    assert NativeWind[0] != StyleSheet[0];
    if Has(deps, "tailwindcss") || Has(deps, "nativewind") then NativeWind else StyleSheet
  }

  /** `_suggestNavigation`: the same two structures for every project. */
  function SuggestNavigation(): (nav: seq<string>)
    ensures |nav| == 2 && nav[0] == "Stack Navigation" && nav[1] == "Tab Navigation"
  {
    ["Stack Navigation", "Tab Navigation"]
  }

  /** `analyze`: a missing package.json counts as one without dependencies. */
  method Analyze(projectPath: string, packageJson: Option<PackageJson>) returns (ctx: GlobalMigrationContext)
    ensures var pkg := packageJson.GetOr(PackageJson(map[], map[]));
      && ctx.projectPath == projectPath
      && ctx.packageJson == pkg
      && ctx.styleSystem == DetectStyleSystem(pkg)
      && ctx.navigationStrategy == SuggestNavigation()
      && (Detected(Deps(pkg)) == [] ==> ctx.techStack == DefaultStack)
      && (Detected(Deps(pkg)) != [] ==> ctx.techStack == Join(Names(Detected(Deps(pkg))), ", "))
  {
    var pkg := packageJson.GetOr(PackageJson(map[], map[]));
    var techStack := DetectTechStack(pkg);
    ctx := GlobalMigrationContext(projectPath, techStack, DetectStyleSystem(pkg), pkg, SuggestNavigation());
  }

  /** Without any dependency the stack is the default one and the style system is StyleSheet. */
  lemma NoDependencies()
    ensures Detected(Deps(PackageJson(map[], map[]))) == []
    ensures DetectStyleSystem(PackageJson(map[], map[])) == StyleSheet
  {
  }
}
