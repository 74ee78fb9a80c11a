/** `buildDependencyGraph`: the forward map from each parsed file to the
    files it imports, and the reverse map from each file to its importers. */
module GraphBuilder {
  import opened Wrappers
  import opened Seqs
  import opened Strings
  import opened OrderedMaps
  import opened NodePath
  import opened AstParser

  /** The local `normalize`: every backslash becomes '/'. */
  function NormalizeSlashes(p: string): (r: string)
    ensures |r| == |p|
    ensures '\\' !in r
    ensures forall i :: 0 <= i < |p| && p[i] != '\\' ==> r[i] == p[i]
  {
    ReplaceChar(p, '\\', '/')
  }

  lemma NormalizeSlashesIdempotent(p: string)
    ensures NormalizeSlashes(NormalizeSlashes(p)) == NormalizeSlashes(p)
  {
  }

  /** The forward key of a parsed file: its path relative to the source
      root, or its own path when that is empty, with '/' separators. */
  function FileKey(f: ParsedFile): string
  {
    NormalizeSlashes(if f.relativeToSrc != "" then f.relativeToSrc else f.ast.filePath)
  }

  /** The resolution candidates, in the order they are listed. */
  function Candidates(full: string): (cs: seq<string>)
    ensures |cs| == 8
  {
    [full + ".js", full + ".jsx", full + ".ts", full + ".tsx",
     full + "/index.js", full + "/index.jsx", full + "/index.ts", full + "/index.tsx"]
  }

  /** `resolveImportPath`: a specifier not starting with '.' is a package
      and resolves to nothing; any other resolves to the first candidate,
      whether or not such a file exists. */
  function ResolveImportPath(importPath: string, currentFile: string): (r: Option<string>)
    ensures r.None? <==> !StartsWith(importPath, ".")
    ensures r.Some? ==> r.value == PathJoin(DirName(currentFile), importPath) + ".js"
  {
    if !StartsWith(importPath, ".") then None
    else
      var full := ToPosix(PathJoin(DirName(currentFile), importPath));
      Some(Candidates(full)[0])
  }

  /** The targets pushed for a file's imports, in import order. */
  function Targets(imports: seq<ImportRecord>, key: string): seq<string>
  {
    if imports == [] then []
    else
      var r := ResolveImportPath(imports[|imports| - 1].source, key);
      Targets(imports[..|imports| - 1], key) + (if r.Some? then [r.value] else [])
  }

  predicate IsRelative(imp: ImportRecord)
  {
    StartsWith(imp.source, ".")
  }

  function CountRelative(imports: seq<ImportRecord>): nat
  {
    if imports == [] then 0
    else CountRelative(imports[..|imports| - 1]) + (if IsRelative(imports[|imports| - 1]) then 1 else 0)
  }

  /** The forward map after its first loop has run over `files`: each file's
      key is (re)set and then receives its targets, so a later file with
      the same key replaces the earlier one's list. */
  function Forward(files: seq<ParsedFile>): OMap<seq<string>>
  {
    if files == [] then Empty()
    else
      var f := files[|files| - 1];
      Forward(files[..|files| - 1]).Put(FileKey(f), Targets(f.ast.imports, FileKey(f)))
  }

  function Keys(files: seq<ParsedFile>): (ks: seq<string>)
    ensures |ks| == |files|
    ensures forall i :: 0 <= i < |files| ==> ks[i] == FileKey(files[i])
  {
    seq(|files|, i requires 0 <= i < |files| => FileKey(files[i]))
  }

  datatype DependencyGraph = DependencyGraph(importsGraph: OMap<seq<string>>, reverseGraph: OMap<seq<string>>)

  /** The (key, target) pairs of the forward map, in key order. */
  function Edges(forward: OMap<seq<string>>): seq<(string, string)>
  {
    Pairs(forward.keys, k => forward.GetOr(k, []))
  }

  /** Reverse symmetry with multiplicity: `a` is listed under `b` in the
      reverse map as often as `b` is listed under `a` in the forward map. */
  ghost predicate Symmetric(g: DependencyGraph)
  {
    forall a, b :: Count(g.reverseGraph.GetOr(b, []), a) == Count(g.importsGraph.GetOr(a, []), b)
  }

  // ---- The loops of buildDependencyGraph ----

  lemma TargetsSnoc(imports: seq<ImportRecord>, j: nat, key: string)
    requires j < |imports|
    ensures Targets(imports[..j + 1], key) == Targets(imports[..j], key)
      + (if ResolveImportPath(imports[j].source, key).Some? then [ResolveImportPath(imports[j].source, key).value] else [])
  {
    assert imports[..j + 1][..j] == imports[..j];
  }

  /** The inner loop of the first step for one file. */
  method AddFile(forward0: OMap<seq<string>>, key: string, imports: seq<ImportRecord>) returns (forward: OMap<seq<string>>)
    ensures forward == forward0.Put(key, Targets(imports, key))
  {
    forward := forward0.Put(key, []);
    var j := 0;
    while j < |imports|
      invariant 0 <= j <= |imports|
      invariant forward == forward0.Put(key, Targets(imports[..j], key))
    {
      var resolved := ResolveImportPath(imports[j].source, key);
      TargetsSnoc(imports, j, key);
      if resolved.Some? {
        PutTwice(forward0, key, Targets(imports[..j], key), Targets(imports[..j + 1], key));
        forward := forward.Put(key, forward.entries[key] + [resolved.value]);
      } else {
        assert Targets(imports[..j + 1], key) == Targets(imports[..j], key) + [];
        assert Targets(imports[..j], key) + [] == Targets(imports[..j], key);
      }
      j := j + 1;
    }
    assert imports[..j] == imports;
  }

  /** `reverse` inverts `edges` and has a key for each element of `s`
      that is no target. */
  ghost predicate CoversKeys(reverse: OMap<seq<string>>, edges: seq<(string, string)>, s: seq<string>)
  {
    && reverse.Valid()
    && reverse.keys == Dedup(s)
    && forall item :: reverse.GetOr(item, []) == Owners(edges, item)
  }

  lemma CoversKeysStep(reverse: OMap<seq<string>>, edges: seq<(string, string)>, s: seq<string>, k: string)
    requires CoversKeys(reverse, edges, s)
    requires forall x :: x in Items(edges) ==> x in s
    ensures CoversKeys(if k in reverse.entries then reverse else reverse.Put(k, []), edges, s + [k])
  {
    assert (s + [k])[..|s|] == s;
    DedupSpec(s);
    if k !in reverse.entries {
      OwnersNonEmpty(edges, k);
    }
  }

  /** The third step: every forward key gets a reverse entry, empty if new. */
  method AddMissingKeys(reverse0: OMap<seq<string>>, ghost edges: seq<(string, string)>, keys: seq<string>)
    returns (reverse: OMap<seq<string>>)
    requires Inverts(reverse0, edges)
    ensures CoversKeys(reverse, edges, Items(edges) + keys)
  {
    reverse := reverse0;
    var i := 0;
    assert Items(edges) + keys[..0] == Items(edges);
    while i < |keys|
      invariant 0 <= i <= |keys|
      invariant CoversKeys(reverse, edges, Items(edges) + keys[..i])
    {
      CoversKeysStep(reverse, edges, Items(edges) + keys[..i], keys[i]);
      assert Items(edges) + keys[..i + 1] == Items(edges) + keys[..i] + [keys[i]];
      if keys[i] !in reverse.entries {
        reverse := reverse.Put(keys[i], []);
      }
      i := i + 1;
    }
    assert keys[..i] == keys;
  }

  /** `buildDependencyGraph(parsedFiles)`. */
  method BuildDependencyGraph(parsedFiles: seq<ParsedFile>) returns (g: DependencyGraph)
    ensures g.importsGraph == Forward(parsedFiles)
    ensures CoversKeys(g.reverseGraph, Edges(g.importsGraph), Items(Edges(g.importsGraph)) + g.importsGraph.keys)
  {
    // Step 1: the forward map.
    var forward := Empty();
    var i := 0;
    while i < |parsedFiles|
      invariant 0 <= i <= |parsedFiles|
      invariant forward == Forward(parsedFiles[..i])
    {
      assert parsedFiles[..i + 1][..i] == parsedFiles[..i];
      var key := FileKey(parsedFiles[i]);
      forward := AddFile(forward, key, parsedFiles[i].ast.imports);
      i := i + 1;
    }
    assert parsedFiles[..i] == parsedFiles;
    // Step 2: the reverse map, importers pushed in forward-key order.
    var reverse := Invert(forward.keys, k => forward.GetOr(k, []));
    assert Inverts(reverse, Edges(forward)) by {
      forall item ensures reverse.GetOr(item, []) == Owners(Edges(forward), item) {
        OwnersNonEmpty(Edges(forward), item);
        DedupSpec(Items(Edges(forward)));
      }
    }
    // Step 3: every forward key is a reverse key.
    reverse := AddMissingKeys(reverse, Edges(forward), forward.keys);
    g := DependencyGraph(forward, reverse);
  }

  // ---- Properties ----

  /** The forward keys are the files' keys, each once, in order of first
      appearance. */
  lemma {:induction false} ForwardKeys(files: seq<ParsedFile>)
    ensures Forward(files).Valid()
    ensures Forward(files).keys == Dedup(Keys(files))
  {
    if files != [] {
      var init := files[..|files| - 1];
      ForwardKeys(init);
      assert Keys(files)[..|files| - 1] == Keys(init);
      DedupSpec(Keys(init));
    }
  }

  /** A key maps to the targets of the last file with that key: an earlier
      file with the same key has its list reset. */
  lemma {:induction false} ForwardLastFileWins(files: seq<ParsedFile>, i: nat)
    requires i < |files|
    requires forall j :: i < j < |files| ==> FileKey(files[j]) != FileKey(files[i])
    ensures FileKey(files[i]) in Forward(files).entries
    ensures Forward(files).entries[FileKey(files[i])] == Targets(files[i].ast.imports, FileKey(files[i]))
  {
    if i < |files| - 1 {
      var init := files[..|files| - 1];
      assert init[i] == files[i];
      ForwardLastFileWins(init, i);
    }
  }

  /** One target per relative specifier, package specifiers contributing none. */
  lemma {:induction false} TargetsCount(imports: seq<ImportRecord>, key: string)
    ensures |Targets(imports, key)| == CountRelative(imports)
  {
    if imports != [] {
      TargetsCount(imports[..|imports| - 1], key);
    }
  }

  /** Each target is the resolution of some relative specifier of the file. */
  lemma {:induction false} TargetsResolve(imports: seq<ImportRecord>, key: string, t: string)
    requires t in Targets(imports, key)
    ensures exists i :: 0 <= i < |imports| && IsRelative(imports[i])
              && t == PathJoin(DirName(key), imports[i].source) + ".js"
  {
    var init := imports[..|imports| - 1];
    if t in Targets(init, key) {
      TargetsResolve(init, key, t);
      var i :| 0 <= i < |init| && IsRelative(init[i]) && t == PathJoin(DirName(key), init[i].source) + ".js";
      assert imports[i] == init[i];
    }
  }

  /** The resolved graph is symmetric. */
  lemma ReverseIsSymmetric(g: DependencyGraph)
    requires g.importsGraph.Valid()
    requires CoversKeys(g.reverseGraph, Edges(g.importsGraph), Items(Edges(g.importsGraph)) + g.importsGraph.keys)
    ensures Symmetric(g)
  {
    var forward := g.importsGraph;
    forall a, b ensures Count(g.reverseGraph.GetOr(b, []), a) == Count(forward.GetOr(a, []), b) {
      OwnersCount(forward.keys, k => forward.GetOr(k, []), b, a);
    }
  }

  /** Every forward key is a reverse key; a reverse key that is no forward
      key is the target of some edge. */
  lemma ReverseKeys(g: DependencyGraph)
    requires CoversKeys(g.reverseGraph, Edges(g.importsGraph), Items(Edges(g.importsGraph)) + g.importsGraph.keys)
    ensures forall k :: k in g.importsGraph.keys ==> k in g.reverseGraph.entries
    ensures forall k :: k in g.reverseGraph.entries && k !in g.importsGraph.keys ==> k in Items(Edges(g.importsGraph))
  {
    DedupSpec(Items(Edges(g.importsGraph)) + g.importsGraph.keys);
  }

  /** A relative specifier "./x" imported from "d/f" resolves to "d/x.js",
      for plain names `d`, `f` and `x`. */
  lemma ResolveSibling(d: string, f: string, x: string)
    requires IsPlainName(d) && IsPlainName(x) && f != [] && Sep !in f
    ensures ResolveImportPath("./" + x, d + "/" + f) == Some(d + "/" + x + ".js")
  {
    DirNameOfChild(d, f);
    JoinChild(d, x);
    assert d + "/" + ("./" + x) == d + [Sep] + ("." + [Sep] + x);
  }
}
