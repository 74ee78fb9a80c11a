/** The project context the converter hands to each file's conversion:
    every scanned file with its parse result under its path, the map from
    component names to the files that define them, and the dependency
    graph; and, for one file, the slice of that context plus a one-line
    description of the file. */
module ContextBuilder {
  import opened Wrappers
  import opened Seqs
  import opened Strings
  import opened OrderedMaps
  import opened FileScanner
  import opened AstParser
  import opened GraphBuilder

  /** The key of each element, in order. */
  function KeysBy<T>(xs: seq<T>, key: T -> string): (ks: seq<string>)
    ensures |ks| == |xs|
    ensures forall i :: 0 <= i < |xs| ==> ks[i] == key(xs[i])
  {
    seq(|xs|, i requires 0 <= i < |xs| => key(xs[i]))
  }

  /** Index of the last element whose key is `k`, or -1. */
  function LastIndexBy<T>(xs: seq<T>, key: T -> string, k: string): (i: int)
    ensures -1 <= i < |xs|
    ensures i >= 0 ==> key(xs[i]) == k
    ensures forall j :: i < j < |xs| ==> key(xs[j]) != k
  {
    if xs == [] then -1
    else if key(xs[|xs| - 1]) == k then |xs| - 1
    else LastIndexBy(xs[..|xs| - 1], key, k)
  }

  lemma {:induction false} LastIndexByFound<T>(xs: seq<T>, key: T -> string, k: string)
    ensures LastIndexBy(xs, key, k) >= 0 <==> k in KeysBy(xs, key)
  {
    if xs != [] {
      var init := xs[..|xs| - 1];
      LastIndexByFound(init, key, k);
      assert KeysBy(xs, key) == KeysBy(init, key) + [key(xs[|xs| - 1])];
    }
  }

  /** The loop `for (const x of xs) obj[key(x)] = val(x)`: one entry per
      distinct key, in order of first occurrence, holding the value of the
      last element with that key. */
  method IndexBy<T, V>(xs: seq<T>, key: T -> string, val: T -> V) returns (m: OMap<V>)
    ensures m.Valid()
    ensures m.keys == Dedup(KeysBy(xs, key))
    ensures forall k :: k in m.entries <==> k in KeysBy(xs, key)
    ensures forall k :: k in m.entries ==> LastIndexBy(xs, key, k) >= 0 && m.entries[k] == val(xs[LastIndexBy(xs, key, k)])
  {
    ghost var ks := KeysBy(xs, key);
    m := Empty();
    var i := 0;
    while i < |xs|
      invariant 0 <= i <= |xs|
      invariant m.Valid()
      invariant m.keys == Dedup(ks[..i])
      invariant forall k :: k in m.entries <==> k in ks[..i]
      invariant forall k :: k in m.entries ==> LastIndexBy(xs[..i], key, k) >= 0 && m.entries[k] == val(xs[LastIndexBy(xs[..i], key, k)])
    {
      TakeSnoc(ks, i);
      assert ks[..i + 1][..i] == ks[..i];
      assert xs[..i + 1][..i] == xs[..i];
      assert ks[..i] == KeysBy(xs[..i], key);
      DedupSpec(ks[..i]);
      m := m.Put(key(xs[i]), val(xs[i]));
      i := i + 1;
    }
    assert ks[..i] == ks && xs[..i] == xs;
  }

  /** A scanned file with the parse result filed under the same path
      (`{...f, ast: parsed || null}`). */
  datatype FileMeta = FileMeta(file: FileRecord, ast: Option<ParsedFile>)

  datatype ProjectContext = ProjectContext(
    structure: Tree,
    filesByPath: OMap<FileMeta>,
    globalComponents: OMap<seq<string>>,
    dependencyGraph: OMap<seq<string>>,
    reverseDependencyGraph: OMap<seq<string>>)

  /** The key of a scanned file. */
  function RelKey(f: FileRecord): string
  {
    NormalizeSlashes(f.relativeToSrc)
  }

  /** The parse result `buildProjectContext` files under `key`: the last one
      whose key it is. */
  function ParsedFor(parsedFiles: seq<ParsedFile>, key: string): (r: Option<ParsedFile>)
    ensures r.Some? ==> r.value in parsedFiles && FileKey(r.value) == key
  {
    var j := LastIndexBy(parsedFiles, FileKey, key);
    if j >= 0 then Some(parsedFiles[j]) else None
  }

  /** The components each path's parse result declares; none without one. */
  function ComponentLists(filesByPath: OMap<FileMeta>): string -> seq<string>
  {
    k => if k in filesByPath.entries && filesByPath.entries[k].ast.Some?
         then filesByPath.entries[k].ast.value.ast.components else []
  }

  /** `buildProjectContext`: `filesByPath` has one entry per scanned path,
      holding the last scanned file with that path and the parse result
      filed under it; `globalComponents[c]` lists the paths whose parse
      result declares `c`, in `filesByPath` order, once per declaration. */
  method BuildProjectContext(files: seq<FileRecord>, parsedFiles: seq<ParsedFile>,
                             importsGraph: OMap<seq<string>>, reverseGraph: OMap<seq<string>>, structure: Tree)
    returns (ctx: ProjectContext)
    ensures ctx.structure == structure
    ensures ctx.dependencyGraph == importsGraph && ctx.reverseDependencyGraph == reverseGraph
    ensures ctx.filesByPath.Valid()
    ensures ctx.filesByPath.keys == Dedup(KeysBy(files, RelKey))
    ensures forall k :: k in ctx.filesByPath.entries ==>
      var i := LastIndexBy(files, RelKey, k);
      i >= 0 && ctx.filesByPath.entries[k] == FileMeta(files[i], ParsedFor(parsedFiles, k))
    ensures ctx.globalComponents.Valid()
    ensures ctx.globalComponents.keys == Dedup(Items(Pairs(ctx.filesByPath.keys, ComponentLists(ctx.filesByPath))))
    ensures forall c :: c in ctx.globalComponents.entries ==>
      ctx.globalComponents.entries[c] == Owners(Pairs(ctx.filesByPath.keys, ComponentLists(ctx.filesByPath)), c)
  {
    var parsedByPath := IndexBy(parsedFiles, FileKey, (pf: ParsedFile) => pf);
    var lookup := (f: FileRecord) =>
      FileMeta(f, if RelKey(f) in parsedByPath.entries then Some(parsedByPath.entries[RelKey(f)]) else None);
    var filesByPath := IndexBy(files, RelKey, lookup);
    forall k | k in filesByPath.entries
      ensures filesByPath.entries[k] == FileMeta(files[LastIndexBy(files, RelKey, k)], ParsedFor(parsedFiles, k))
    {
      LastIndexByFound(parsedFiles, FileKey, k);
    }
    var globalComponents := Invert(filesByPath.keys, ComponentLists(filesByPath));
    ctx := ProjectContext(structure, filesByPath, globalComponents, importsGraph, reverseGraph);
  }

  /** Inversion with multiplicity: path `p` is listed under component `c`
      as often as `p`'s parse result declares `c`; and no component is
      listed with no path. */
  lemma GlobalComponentsCount(ctx: ProjectContext, c: string, p: string)
    requires ctx.filesByPath.Valid()
    requires ctx.globalComponents.Valid()
    requires ctx.globalComponents.keys == Dedup(Items(Pairs(ctx.filesByPath.keys, ComponentLists(ctx.filesByPath))))
    requires forall c :: c in ctx.globalComponents.entries ==>
      ctx.globalComponents.entries[c] == Owners(Pairs(ctx.filesByPath.keys, ComponentLists(ctx.filesByPath)), c)
    ensures Count(ctx.globalComponents.GetOr(c, []), p) ==
      if p in ctx.filesByPath.entries && ctx.filesByPath.entries[p].ast.Some?
      then Count(ctx.filesByPath.entries[p].ast.value.ast.components, c) else 0
    ensures c in ctx.globalComponents.entries ==> ctx.globalComponents.entries[c] != []
  {
    var pairs := Pairs(ctx.filesByPath.keys, ComponentLists(ctx.filesByPath));
    OwnersCount(ctx.filesByPath.keys, ComponentLists(ctx.filesByPath), c, p);
    OwnersNonEmpty(pairs, c);
    DedupSpec(Items(pairs));
    if c !in ctx.globalComponents.entries {
      assert c !in Items(pairs);
      assert Owners(pairs, c) == [];
    }
  }

  /** The parse result as `buildFileContext` sees it (`fileMeta.ast || {}`):
      a missing one reads as no imports, exports, components or hooks, no
      JSX and no source text. */
  function AstOrEmpty(ast: Option<ParsedFile>): (s: FileSummary)
    ensures ast.None? ==> s.components == [] && s.exports == [] && s.hooks == [] && !s.hasJSX && s.raw == ""
    ensures ast.Some? ==> s == ast.value.ast
  {
    if ast.Some? then ast.value.ast else FileSummary("", [], [], false, [], [], "")
  }

  /** The sentence for a file nobody imports. Its opening words are a
      constant of their own so that proofs can read its first letters. */
  const NotImportedHead := "This file is not "
  const NotImportedSentence := NotImportedHead + "imported by any other file (possible entry or leaf)."
  lemma NotImportedSentenceChars()
    ensures |NotImportedSentence| > 13 && NotImportedSentence[0] == 'T' && NotImportedSentence[5] == 'f' && NotImportedSentence[13] == 'n'
  {
    assert NotImportedSentence[..|NotImportedHead|] == NotImportedHead;
  }

  const ImportedByPrefix := "This file is imported by: "
  const TestFileSentence := "This is a test file."

  /** The path `describeFile` names: `relativeToSrc`, or `relativeToProject`
      when that is empty, with '/' separators. */
  function DescribedPath(file: FileRecord): string
  {
    NormalizeSlashes(if file.relativeToSrc != "" then file.relativeToSrc else file.relativeToProject)
  }

  function MapSlashes(ps: seq<string>): (r: seq<string>)
    ensures |r| == |ps| && forall i :: 0 <= i < |ps| ==> r[i] == NormalizeSlashes(ps[i])
  {
    seq(|ps|, i requires 0 <= i < |ps| => NormalizeSlashes(ps[i]))
  }

  function FileSentence(file: FileRecord): string
  {
    "File \"" + DescribedPath(file) + "\"."
  }

  function ComponentsSentence(ast: FileSummary): seq<string>
  {
    if ast.components != [] then ["Defines React components: " + Join(ast.components, ", ") + "."] else []
  }

  function JsxSentence(ast: FileSummary): seq<string>
  {
    if ast.hasJSX then ["Contains JSX UI structure."] else []
  }

  /** Hooks are named once each, in order of first use (`Array.from(new Set(hooks))`). */
  function HooksSentence(ast: FileSummary): seq<string>
  {
    if ast.hooks != [] then ["Uses React hooks: " + Join(Dedup(ast.hooks), ", ") + "."] else []
  }

  function ImportersSentence(importedBy: seq<string>): string
  {
    if importedBy != [] then ImportedByPrefix + Join(MapSlashes(importedBy), ", ") + "." else NotImportedSentence
  }

  function TestSentence(file: FileRecord): seq<string>
  {
    if file.isTestFile then [TestFileSentence] else []
  }

  /** The sentences of the description, in the order `describeFile` pushes them. */
  function DescriptionParts(file: FileRecord, ast: FileSummary, importedBy: seq<string>): seq<string>
  {
    [FileSentence(file)] + ComponentsSentence(ast) + JsxSentence(ast) + HooksSentence(ast)
    + [ImportersSentence(importedBy)] + TestSentence(file)
  }

  /** `describeFile(fileMeta, ast, importedBy)`: pushes its sentences one by one and joins them with spaces. */
  method DescribeFile(file: FileRecord, ast: FileSummary, importedBy: seq<string>) returns (description: string)
    ensures description == Join(DescriptionParts(file, ast, importedBy), " ")
  {
    var parts: seq<string> := [];
    var cleanRel := DescribedPath(file);
    parts := parts + ["File \"" + cleanRel + "\"."];
    assert parts == [FileSentence(file)];
    if |ast.components| > 0 {
      parts := parts + ["Defines React components: " + Join(ast.components, ", ") + "."];
    }
    assert parts == [FileSentence(file)] + ComponentsSentence(ast);
    if ast.hasJSX {
      parts := parts + ["Contains JSX UI structure."];
    }
    assert parts == [FileSentence(file)] + ComponentsSentence(ast) + JsxSentence(ast);
    if |ast.hooks| > 0 {
      var uniqueHooks := Dedup(ast.hooks);
      parts := parts + ["Uses React hooks: " + Join(uniqueHooks, ", ") + "."];
    }
    assert parts == [FileSentence(file)] + ComponentsSentence(ast) + JsxSentence(ast) + HooksSentence(ast);
    if |importedBy| > 0 {
      parts := parts + [ImportedByPrefix + Join(MapSlashes(importedBy), ", ") + "."];
    } else {
      parts := parts + [NotImportedSentence];
    }
    if file.isTestFile {
      parts := parts + [TestFileSentence];
    }
    assert parts == DescriptionParts(file, ast, importedBy);
    description := Join(parts, " ");
  }

  /** A sentence about the file's importers. */
  predicate IsImportSentence(s: string)
  {
    s == NotImportedSentence || StartsWith(s, ImportedByPrefix)
  }

  function ImportSentences(parts: seq<string>): nat
  {
    if parts == [] then 0
    else ImportSentences(parts[..|parts| - 1]) + (if IsImportSentence(parts[|parts| - 1]) then 1 else 0)
  }

  lemma {:induction false} ImportSentencesAppend(a: seq<string>, b: seq<string>)
    ensures ImportSentences(a + b) == ImportSentences(a) + ImportSentences(b)
    decreases |b|
  {
    if b == [] {
      assert a + b == a;
    } else {
      assert (a + b)[..|a + b| - 1] == a + b[..|b| - 1];
      ImportSentencesAppend(a, b[..|b| - 1]);
    }
  }

  /** A sentence whose first character is not 'T' is not about importers. */
  lemma NotImportSentence(s: string)
    requires |s| > 0 && s[0] != 'T'
    ensures ImportSentences([s]) == 0
  {
    NotImportedSentenceChars();
    assert ImportedByPrefix[0] == 'T';
    assert [s][..0] == [];
  }

  lemma OneSentence(s: string)
    ensures ImportSentences([s]) == if IsImportSentence(s) then 1 else 0
  {
    assert [s][..0] == [];
  }

  lemma NoImportsBefore(file: FileRecord, ast: FileSummary)
    ensures ImportSentences([FileSentence(file)] + ComponentsSentence(ast) + JsxSentence(ast) + HooksSentence(ast)) == 0
  {
    NotImportSentence(FileSentence(file));
    if ast.components != [] {
      NotImportSentence(ComponentsSentence(ast)[0]);
    } else {
      assert ImportSentences(ComponentsSentence(ast)) == 0;
    }
    if ast.hasJSX {
      NotImportSentence(JsxSentence(ast)[0]);
    } else {
      assert ImportSentences(JsxSentence(ast)) == 0;
    }
    if ast.hooks != [] {
      NotImportSentence(HooksSentence(ast)[0]);
    } else {
      assert ImportSentences(HooksSentence(ast)) == 0;
    }
    ImportSentencesAppend([FileSentence(file)], ComponentsSentence(ast));
    ImportSentencesAppend([FileSentence(file)] + ComponentsSentence(ast), JsxSentence(ast));
    ImportSentencesAppend([FileSentence(file)] + ComponentsSentence(ast) + JsxSentence(ast), HooksSentence(ast));
  }

  lemma ImportersSentenceCounts(importedBy: seq<string>)
    ensures ImportSentences([ImportersSentence(importedBy)]) == 1
  {
    if importedBy != [] {
      StartsWithConcat(ImportedByPrefix, Join(MapSlashes(importedBy), ", ") + ".");
      assert ImportedByPrefix + Join(MapSlashes(importedBy), ", ") + "." == ImportedByPrefix + (Join(MapSlashes(importedBy), ", ") + ".");
    }
    OneSentence(ImportersSentence(importedBy));
  }

  lemma TestSentenceCounts(file: FileRecord)
    ensures ImportSentences(TestSentence(file)) == 0
  {
    if file.isTestFile {
      NotImportedSentenceChars();
      assert TestFileSentence[5] == 'i' && ImportedByPrefix[5] == 'f';
      OneSentence(TestFileSentence);
    }
  }

  /** Exactly one sentence speaks of the file's importers. */
  lemma ImportSentenceOnce(file: FileRecord, ast: FileSummary, importedBy: seq<string>)
    ensures ImportSentences(DescriptionParts(file, ast, importedBy)) == 1
  {
    var before := [FileSentence(file)] + ComponentsSentence(ast) + JsxSentence(ast) + HooksSentence(ast);
    NoImportsBefore(file, ast);
    ImportersSentenceCounts(importedBy);
    TestSentenceCounts(file);
    ImportSentencesAppend(before, [ImportersSentence(importedBy)]);
    ImportSentencesAppend(before + [ImportersSentence(importedBy)], TestSentence(file));
  }

  /** That sentence lists the importers when there are some and otherwise
      says the file is imported by no other file. */
  lemma NotImportedIffNoImporters(file: FileRecord, ast: FileSummary, importedBy: seq<string>)
    ensures importedBy == [] <==> NotImportedSentence in DescriptionParts(file, ast, importedBy)
    ensures importedBy != [] ==> ImportedByPrefix + Join(MapSlashes(importedBy), ", ") + "." in DescriptionParts(file, ast, importedBy)
  {
    ImportersSentenceIn(file, ast, importedBy);
    if importedBy != [] {
      NotImportedAbsent(file, ast, importedBy);
    }
  }

  lemma ImportersSentenceIn(file: FileRecord, ast: FileSummary, importedBy: seq<string>)
    ensures ImportersSentence(importedBy) in DescriptionParts(file, ast, importedBy)
  {
  }

  /** With importers, the "not imported" sentence is absent: the description
      holds exactly one importer sentence, and it is the list of importers. */
  lemma NotImportedAbsent(file: FileRecord, ast: FileSummary, importedBy: seq<string>)
    requires importedBy != []
    ensures NotImportedSentence !in DescriptionParts(file, ast, importedBy)
  {
    var parts := DescriptionParts(file, ast, importedBy);
    var imp := ImportersSentence(importedBy);
    ImportersSentenceIn(file, ast, importedBy);
    if NotImportedSentence in parts {
      ImportersDiffer(importedBy);
      ImportSentenceOnce(file, ast, importedBy);
      CountImportTwice(parts, NotImportedSentence, imp);
    }
  }

  lemma ImportersDiffer(importedBy: seq<string>)
    requires importedBy != []
    ensures ImportersSentence(importedBy) != NotImportedSentence
    ensures StartsWith(ImportersSentence(importedBy), ImportedByPrefix)
  {
    var imp := ImportersSentence(importedBy);
    var rest := Join(MapSlashes(importedBy), ", ") + ".";
    assert imp == ImportedByPrefix + rest;
    StartsWithConcat(ImportedByPrefix, rest);
    assert imp[13] == ImportedByPrefix[13] == 'i';
    NotImportedSentenceChars();
  }

  /** Two different importer sentences in a list count twice. */
  lemma {:induction false} CountImportTwice(parts: seq<string>, a: string, b: string)
    requires a in parts && b in parts && a != b
    requires IsImportSentence(a) && IsImportSentence(b)
    ensures ImportSentences(parts) >= 2
  {
    var init, last := parts[..|parts| - 1], parts[|parts| - 1];
    assert parts == init + [last];
    if last == a {
      assert b in init;
      CountImportOnce(init, b);
    } else if last == b {
      assert a in init;
      CountImportOnce(init, a);
    } else {
      assert a in init && b in init;
      CountImportTwice(init, a, b);
    }
  }

  lemma {:induction false} CountImportOnce(parts: seq<string>, a: string)
    requires a in parts && IsImportSentence(a)
    ensures ImportSentences(parts) >= 1
  {
    var init, last := parts[..|parts| - 1], parts[|parts| - 1];
    assert parts == init + [last];
    if last != a {
      assert a in init;
      CountImportOnce(init, a);
    }
  }

  /** The description begins by naming the file and, for a test file, ends
      by saying so; its hooks sentence names each hook once, in order of
      first use. */
  lemma DescriptionShape(file: FileRecord, ast: FileSummary, importedBy: seq<string>)
    ensures StartsWith(Join(DescriptionParts(file, ast, importedBy), " "), "File \"" + DescribedPath(file) + "\".")
    ensures file.isTestFile ==> EndsWith(Join(DescriptionParts(file, ast, importedBy), " "), TestFileSentence)
    ensures ast.hooks != [] ==> "Uses React hooks: " + Join(Dedup(ast.hooks), ", ") + "." in DescriptionParts(file, ast, importedBy)
    ensures Distinct(Dedup(ast.hooks)) && forall h :: h in Dedup(ast.hooks) <==> h in ast.hooks
  {
    var parts := DescriptionParts(file, ast, importedBy);
    JoinEnds(parts, " ");
    DedupSpec(ast.hooks);
  }

  /** The slice of the project context `buildFileContext` returns for one file. */
  datatype FileContext = FileContext(
    projectStructure: Tree,
    globalComponentMap: OMap<seq<string>>,
    dependencyGraph: OMap<seq<string>>,
    reverseDependencyGraph: OMap<seq<string>>,
    filePath: string,
    filename: string,
    ext: string,
    isTestFile: bool,
    segments: seq<string>,
    fileDescription: string,
    fileImports: seq<string>,
    fileImportedBy: seq<string>,
    fileComponents: seq<string>,
    fileExports: seq<ExportRecord>,
    fileHooks: seq<string>,
    fileHasJSX: bool,
    fileContent: string)

  /** `buildFileContext(target, ctx)`: the error names the normalised path
      when it has no entry; otherwise the file's record, its edges in both
      graphs (none when it has no key) and its parse result's fields. */
  function BuildFileContext(targetRelativePath: string, ctx: ProjectContext): (r: Result<FileContext>)
    ensures r.Err? <==> NormalizeSlashes(targetRelativePath) !in ctx.filesByPath.entries
    ensures r.Err? ==> r.message == "File " + NormalizeSlashes(targetRelativePath) + " not found in projectContext.filesByPath."
    ensures r.Ok? ==>
      var relPath := NormalizeSlashes(targetRelativePath);
      var meta := ctx.filesByPath.entries[relPath];
      && r.value.projectStructure == ctx.structure
      && r.value.globalComponentMap == ctx.globalComponents
      && r.value.dependencyGraph == ctx.dependencyGraph
      && r.value.reverseDependencyGraph == ctx.reverseDependencyGraph
      && r.value.filePath == relPath
      && r.value.filename == meta.file.filename
      && r.value.ext == meta.file.ext
      && r.value.isTestFile == meta.file.isTestFile
      && r.value.segments == meta.file.segments
      && r.value.fileImports == ctx.dependencyGraph.GetOr(relPath, [])
      && r.value.fileImportedBy == ctx.reverseDependencyGraph.GetOr(relPath, [])
      && r.value.fileComponents == AstOrEmpty(meta.ast).components
      && r.value.fileExports == AstOrEmpty(meta.ast).exports
      && r.value.fileHooks == AstOrEmpty(meta.ast).hooks
      && r.value.fileHasJSX == AstOrEmpty(meta.ast).hasJSX
      && r.value.fileContent == AstOrEmpty(meta.ast).raw
      && StartsWith(r.value.fileDescription, "File \"" + DescribedPath(meta.file) + "\".")
  {
    var relPath := NormalizeSlashes(targetRelativePath);
    if relPath !in ctx.filesByPath.entries then
      Err("File " + relPath + " not found in projectContext.filesByPath.")
    else
      var fileMeta := ctx.filesByPath.entries[relPath];
      var ast := AstOrEmpty(fileMeta.ast);
      var fileImports := ctx.dependencyGraph.GetOr(relPath, []);
      var fileImportedBy := ctx.reverseDependencyGraph.GetOr(relPath, []);
      DescriptionShape(fileMeta.file, ast, fileImportedBy);
      var fileDescription := Join(DescriptionParts(fileMeta.file, ast, fileImportedBy), " ");
      Ok(FileContext(
        ctx.structure, ctx.globalComponents, ctx.dependencyGraph, ctx.reverseDependencyGraph,
        relPath, fileMeta.file.filename, fileMeta.file.ext, fileMeta.file.isTestFile, fileMeta.file.segments,
        fileDescription, fileImports, fileImportedBy,
        ast.components, ast.exports, ast.hooks, ast.hasJSX, ast.raw))
  }

  /** Every path of `filesByPath` has a file context, and a path spelled
      with backslashes finds the same one. */
  lemma EveryFileHasContext(files: seq<FileRecord>, ctx: ProjectContext, k: string)
    requires ctx.filesByPath.keys == Dedup(KeysBy(files, RelKey))
    requires ctx.filesByPath.Valid()
    requires k in ctx.filesByPath.entries
    ensures BuildFileContext(k, ctx).Ok?
    ensures BuildFileContext(k, ctx) == BuildFileContext(NormalizeSlashes(k), ctx)
  {
    DedupSpec(KeysBy(files, RelKey));
    var i :| 0 <= i < |files| && KeysBy(files, RelKey)[i] == k;
    NormalizeSlashesIdempotent(files[i].relativeToSrc);
  }
}
