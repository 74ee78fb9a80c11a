# retransify planning core in Dafny

retransify plans the migration of a React web project to an Expo / React
Native project. Before any file is converted, the tool does the following:

- scans the project's source tree (`scanProject`);
- summarises each file's abstract syntax tree (`parseFile`);
- builds the import graph and its reverse (`buildDependencyGraph`);
- assembles a project context and a per-file context with a short English
  description (`buildProjectContext`, `buildFileContext`);
- chooses a destination path for every file (`PathMapper`);
- orders the files so that dependencies come first (`Planner`);
- classifies the tech stack from `package.json` (`Analyzer`);
- keeps a per-file migration status (`StateManager`);
- cleans the text an AI model returns (`cleanAIResponse`).

This project models those parts as Dafny functions, methods and classes, and
proves what each promises.

Modules, one per source file plus shared helpers:

- `Wrappers`, `Seqs`, `Strings`: Option/Result, counting, de-duplication,
  split/join, suffix replacement.
- `OrderedMaps`: a JavaScript object with string keys, modelled as a map plus
  the keys in insertion order. `Invert` builds the "value → keys that list it"
  object, which both the reverse import graph and the global component map
  use.
- `NodePath`: the parts of Node's POSIX `path` module the core calls
  (`extname`, `basename`, `dirname`, `normalize`, `join`).
- `FileScanner`: configuration defaults and merging, the recursive collection
  of files over a directory listing, test-file detection, and the structure
  tree.
- `AstParser`: a syntax tree datatype and the visitor callbacks of `parseFile`
  over its pre-order traversal.
- `GraphBuilder`: import resolution and the forward and reverse graphs.
- `ContextBuilder`: project context, file context and the file description.
- `PathMapper`: the destination rules and `generateMap`.
- `Planner`: the depth-first topological sort as a class over explicit
  visited / in-progress sets, and `plan`.
- `Analyzer`: tech stack, style system and navigation suggestion.
- `StateManager`: the status map as a class.
- `CleanAIResponse`: the regular-expression clean-up, written out as string
  functions.

The model follows what the code does, including where it does less than
its names suggest:

- `resolveImportPath` returns its first candidate, `<dir/import>.js`, without
  looking for the file. The loop over the candidates returns on its first
  iteration.
- `scanProject` fails when the source directory is missing. `readdir` throws
  and nothing catches it.
- A parse error in `parseFile` propagates. The model returns `Err`.
- `getStatus` falls back to `PENDING` through `||`.

## Model

| member | source | states |
|---|---|---|
| FileScanner.MergeOptions | src/core/fileScanner.js:38-41 | Characterised by MergeOverridesFieldByField: each given option replaces its default field |
| FileScanner.MergeOverridesFieldByField | src/core/fileScanner.js:8-41 | With no options the configuration is the default one (srcDir "src", the four extensions, the eight ignored directories, no ignored files); each option given replaces its default field and each absent one keeps its default, stated field by field for all four |
| FileScanner.IsTestFile | src/core/fileScanner.js:91-99 | Characterised by TestFileExtension: an accepted name ends in a default extension |
| FileScanner.TestFileExtension | src/core/fileScanner.js:91-99 | Every name the test-file check accepts ends in one of the default extensions, so a test file always passes the default extension filter |
| FileScanner.TestSuffixExt | src/core/fileScanner.js:86-99 | For a `.test`/`.spec` name with one of the four extensions, `path.extname` returns exactly that extension |
| FileScanner.MakeRecord | src/core/fileScanner.js:101-111 | The record keeps the entry name as filename and its extname as ext; its segments joined with '/' give relativeToSrc, which is the directory path below the source root followed by the name |
| FileScanner.CollectFiles | src/core/fileScanner.js:65-116 | The recursive walk returns exactly the specification `Collected` of the listing: directories in ignoreDirs are skipped, files in ignoreFiles or with another extension are dropped, other entries ignored, in listing order |
| FileScanner.PruningIsFiltering | src/core/fileScanner.js:74-89 | Skipping an ignored directory during the walk gives the same records as listing every file of the tree and filtering out those below an ignored directory, wrong extension or ignored name |
| FileScanner.SelectUnderIgnored | src/core/fileScanner.js:75 | No file below an ignored directory is selected |
| FileScanner.SelectUnder | src/core/fileScanner.js:74-79 | Below a kept directory, selection commutes with prefixing the directory name |
| FileScanner.RecordsUnder | src/core/fileScanner.js:70-77 | Records of files under a sub-directory are the records built by the recursive call on that sub-directory (path joined, prefix extended) |
| FileScanner.CollectedSound | src/core/fileScanner.js:84-111 | Every collected record comes from a selected file of the listing, has a filename not in ignoreFiles, and an ext in the configured extensions equal to the extname of its filename |
| FileScanner.CollectedFrom | src/core/fileScanner.js:69-113 | Names the file of the listing that a collected record was built from, with its directories as prefix |
| FileScanner.ChildIndex | src/core/fileScanner.js:139 | The index of the first child with the given name, or -1 when no child has it |
| FileScanner.InsertKeepsShape | src/core/fileScanner.js:135-148 | Inserting a path keeps the children's names unique and does not reorder or rename existing children |
| FileScanner.Insert | src/core/fileScanner.js:131-148 | Characterised by InsertKind and InsertFails: the path becomes a file below directories, and insertion fails only through a file |
| FileScanner.InsertKind | src/core/fileScanner.js:139-145 | After an insertion an existing node keeps its kind, the inserted path becomes a file, its proper prefixes become directories, and nothing else appears |
| FileScanner.InsertIntoEmpty | src/core/fileScanner.js:139-147 | Any non-empty path can be inserted into an empty directory |
| FileScanner.InsertFails | src/core/fileScanner.js:147 | Insertion fails only when a proper prefix of the path is already a file (the source then reads `children` of a file node and throws) |
| FileScanner.InsertStep | src/core/fileScanner.js:131-149 | One insertion preserves the tree invariant: every inserted path reaches a node, every file node is an inserted path, every directory lies on the way to one |
| FileScanner.NoDirectoryInTheWay | src/core/fileScanner.js:139-147 | When no path is a proper prefix of another, a later path never lands on a directory created earlier |
| FileScanner.FailureHasCause | src/core/fileScanner.js:139-147 | A failing insertion implies some scanned path runs through another scanned file, so the path list is not prefix-free |
| FileScanner.InsertKeepsFiles | src/core/fileScanner.js:139-147 | Files inserted earlier stay files after a later insertion that does not target a directory |
| FileScanner.InsertPath | src/core/fileScanner.js:132-148 | One pass of the inner loop: succeeds exactly when the insertion does, keeps the tree invariant, and fails only on a path through a file |
| FileScanner.ListingPrefixFree | src/core/fileScanner.js:65-80 | In a listing whose sibling names are distinct and free of '/', no file's path is a proper prefix of another's, and no segment holds '/' |
| FileScanner.CollectedPrefixFree | src/core/fileScanner.js:65-150 | The files collected from such a listing have prefix-free paths, so building their structure tree cannot fail |
| FileScanner.BuildStructureTree | src/core/fileScanner.js:124-163 | The root is a directory named basename(srcRoot) whose tree holds every scanned path; it fails only on a path that runs through a file, and never when the paths are prefix-free |
| FileScanner.ScanProject | src/core/fileScanner.js:37-57 | A missing source root is an error; otherwise the files are `Collected` over srcDir joined to the project root with the merged configuration, and the structure holds their paths; a prefix-free result always succeeds, and so does every proper listing (distinct sibling names without '/'), whose structure then holds every file path as a file node |
| NodePath.ExtName | src/core/fileScanner.js:86 | The extension is empty or a '.'-led suffix of the name with no further dot and shorter than the name |
| NodePath.BaseNameWithout | src/core/helpers/pathMapper.js:30 | The suffix is removed only when the name ends with it, otherwise the name is returned unchanged |
| NodePath.BaseName | src/core/fileScanner.js:126 | The base name holds no separator |
| NodePath.Normalize | src/core/graphBuilder.js:66 | Characterised by NormalizeIdempotent: normalising twice is normalising once |
| NodePath.NormalizeIdempotent | src/core/graphBuilder.js:66 | `path.normalize` is idempotent |
| NodePath.DirName | src/core/graphBuilder.js:63 | Characterised by DirNameOfChild: the directory of `d/f` is `d` |
| NodePath.DirNameOfChild | src/core/graphBuilder.js:63 | The directory of `d/f` is `d` |
| NodePath.PathJoin | src/core/graphBuilder.js:66 | Characterised by JoinChild: joining a directory with `./x` gives `d/x` |
| NodePath.JoinChild | src/core/graphBuilder.js:66 | Joining a directory with `./x` normalises to `d/x` |
| NodePath.DotFormsStable | src/core/graphBuilder.js:66 | `/`, `./` and `.` normalise to themselves |
| AstParser.IsReactComponent | src/core/astParser.js:168-193 | A node is a component exactly when it has a body containing JSX and an `id` whose name is non-empty and starts with a character unchanged by upper-casing; an arrow function (which has no `id`) never is |
| AstParser.ExtractExportName | src/core/astParser.js:198-217 | No declaration gives no name; a declaration with an id (a function, class, or TypeScript interface, type alias or enum) gives the id; otherwise an arrow function gives "AnonymousComponent", an identifier its own name, and anything else "UnknownDefaultExport" |
| AstParser.AnonymousDefaultFunction | src/core/astParser.js:206-216 | An anonymous default function is "UnknownDefaultExport", an arrow function "AnonymousComponent" |
| AstParser.SpecifierOf | src/core/astParser.js:58-77 | A default binding is recorded as kind "default" importing "default", a named one as "named" with its imported name, a namespace one without imported name; the local name is kept |
| AstParser.Specifiers | src/core/astParser.js:58-77 | One specifier per binding, in order |
| AstParser.NamedExports | src/core/astParser.js:112-119 | One named export per specifier, in order |
| AstParser.HooksOf | src/core/astParser.js:150-157 | A call whose callee is an identifier starting with "use" records that name; any other node records nothing |
| AstParser.VisitNode | src/core/astParser.js:52-157 | Visiting one node appends exactly what each callback records for it and sets hasJSX when the node is JSX |
| AstParser.ParseFile | src/core/astParser.js:33-161 | A parse failure is an error; otherwise imports, exports, components and hooks are the per-node records concatenated in pre-order and hasJSX holds iff some node is JSX |
| AstParser.CollectMember | src/core/astParser.js:48-158 | Something is recorded exactly when some visited node records it |
| AstParser.PreOrder | src/core/astParser.js:48 | Every root node occurs in the traversal order, and the order is at least as long as the roots |
| AstParser.ImportsOf | src/core/astParser.js:52-80 | Characterised by ImportsPerDeclaration: one import record per import declaration |
| AstParser.ImportsPerDeclaration | src/core/astParser.js:52-80 | There is exactly one import record per import declaration |
| AstParser.HooksPerCall | src/core/astParser.js:150-157 | There is one hook entry per hook call, repeats included |
| AstParser.HooksAreCallees | src/core/astParser.js:150-157 | A name is among the hooks iff some visited call to an identifier with that name starts with "use" |
| AstParser.MemberCallIsNoHook | src/core/astParser.js:151 | `obj.useX()` is not recorded as a hook |
| AstParser.ComponentsOf | src/core/astParser.js:129-145 | Characterised by ArrowDeclaratorIsNoComponent and DeclaratorRecordsItsOwnName: an arrow is never recorded, a named function expression is recorded under the declarator's name |
| AstParser.ArrowDeclaratorIsNoComponent | src/core/astParser.js:135-144 | `const X = () => <div/>` is never recorded as a component, since the arrow has no id |
| AstParser.DeclaratorRecordsItsOwnName | src/core/astParser.js:141-143 | For a named function expression that is a component, the declarator's own name is recorded, not the function's |
| AstParser.ExportsOf | src/core/astParser.js:95-120 | Characterised by ExportConstRecordsNoName and TypeExportsRecordName: `export const` adds only its specifiers, an exported interface, type alias or enum adds its own name |
| AstParser.TypeExportsRecordName | src/core/astParser.js:102-110 | An exported TypeScript declaration with an id is recorded under that name, as a named export and as a default export |
| AstParser.ExportConstRecordsNoName | src/core/astParser.js:102-120 | `export const ...` adds one export per specifier only, since a variable declaration has no id |
| GraphBuilder.NormalizeSlashes | src/core/graphBuilder.js:17 | Every backslash becomes '/', every other character is kept, the length is kept |
| GraphBuilder.NormalizeSlashesIdempotent | src/core/graphBuilder.js:17 | Normalising twice equals normalising once |
| GraphBuilder.ResolveImportPath | src/core/graphBuilder.js:59-86 | A package import (not starting with '.') resolves to nothing; a relative one always resolves, to the first candidate `join(dirname(current), import) + ".js"` |
| GraphBuilder.ResolveSibling | src/core/graphBuilder.js:59-83 | `./x` imported from `d/f` resolves to `d/x.js` |
| GraphBuilder.AddFile | src/core/graphBuilder.js:24-31 | A file's entry is reset and then holds the resolved relative imports in order |
| GraphBuilder.TargetsCount | src/core/graphBuilder.js:26-31 | A file has one forward target per relative import |
| GraphBuilder.TargetsResolve | src/core/graphBuilder.js:27-30 | Every forward target is the resolution of some relative import of the file |
| GraphBuilder.Forward | src/core/graphBuilder.js:20-32 | Characterised by ForwardKeys and ForwardLastFileWins: one key per distinct file, the later file's imports winning |
| GraphBuilder.ForwardKeys | src/core/graphBuilder.js:20-24 | The forward graph has one key per distinct file key, in order of first appearance |
| GraphBuilder.ForwardLastFileWins | src/core/graphBuilder.js:24 | When two parsed files share a key, the later one's imports replace the earlier one's |
| GraphBuilder.AddMissingKeys | src/core/graphBuilder.js:43-45 | Every forward key gets a reverse entry, keeping existing entries |
| GraphBuilder.BuildDependencyGraph | src/core/graphBuilder.js:12-51 | The forward graph is the specification `Forward` of the parsed files, and the reverse graph inverts its edges and covers every forward key |
| GraphBuilder.ReverseIsSymmetric | src/core/graphBuilder.js:35-40 | `a` is listed under `b` in the reverse graph exactly as often as `b` is listed under `a` in the forward graph |
| GraphBuilder.ReverseKeys | src/core/graphBuilder.js:35-45 | Every forward key is a reverse key, and every other reverse key is some file's import target |
| OrderedMaps.OMap.Put | src/core/graphBuilder.js:24 | Assignment updates the entry, and appends the key to the order only when it is new |
| OrderedMaps.PutTwice | src/core/helpers/pathMapper.js:15 | A second assignment to a key overrides the first and keeps the key's position |
| OrderedMaps.OwnersCount | src/core/graphBuilder.js:35-40 | In the inverted map, a key is listed under an item as often as the item occurs in that key's list |
| OrderedMaps.OwnersNonEmpty | src/core/contextBuilder.js:50-53 | An item gets a non-empty owner list exactly when some list contains it |
| OrderedMaps.PushOwners | src/core/graphBuilder.js:36-39 | Pushing one key under each of its items keeps the inversion invariant |
| OrderedMaps.Invert | src/core/contextBuilder.js:45-54 | The inverted map has the items as keys in first-appearance order, each listing its owners in key order |
| ContextBuilder.LastIndexBy | src/core/contextBuilder.js:27-30 | The last position whose key matches, or -1 |
| ContextBuilder.LastIndexByFound | src/core/contextBuilder.js:27-42 | A key is found exactly when some element has it |
| ContextBuilder.IndexBy | src/core/contextBuilder.js:27-42 | Indexing by key keeps each distinct key once, in first-appearance order, with the value of the last element that has it |
| ContextBuilder.ParsedFor | src/core/contextBuilder.js:36 | A parse result found for a key is one of the parsed files and is filed under that key |
| ContextBuilder.BuildProjectContext | src/core/contextBuilder.js:16-66 | filesByPath keys are the distinct normalised relativeToSrc in scan order, each holding the last file with that key and its parse result (or none); globalComponents maps each component to the paths declaring it; graphs and structure are passed through |
| ContextBuilder.GlobalComponentsCount | src/core/contextBuilder.js:45-54 | A path is listed under a component as often as that file's parse result declares it, and a listed component's list is never empty |
| ContextBuilder.AstOrEmpty | src/core/contextBuilder.js:88 | A file without a parse result is treated as one with no components, exports, hooks, JSX or content |
| ContextBuilder.MapSlashes | src/core/contextBuilder.js:155-156 | Each importer path is slash-normalised, in order |
| ContextBuilder.DescribeFile | src/core/contextBuilder.js:130-168 | The description is the sentences of `DescriptionParts` (the file sentence, components, JSX, hooks, importers, test flag) joined with spaces |
| ContextBuilder.DescriptionParts | src/core/contextBuilder.js:130-166 | Characterised by DescriptionShape and ImportSentenceOnce: the file sentence first, one importer sentence, the test sentence last for test files |
| ContextBuilder.DescriptionShape | src/core/contextBuilder.js:136-165 | The description starts with `File "<path>".`, ends with the test-file sentence for test files, and lists the hooks once each in order of first use |
| ContextBuilder.ImportSentenceOnce | src/core/contextBuilder.js:153-161 | Exactly one sentence about importers is produced |
| ContextBuilder.NotImportedIffNoImporters | src/core/contextBuilder.js:153-161 | The "not imported" sentence appears iff there are no importers; otherwise the importers are listed |
| ContextBuilder.BuildFileContext | src/core/contextBuilder.js:76-120 | An unknown path (after slash normalisation) is the "File X not found in projectContext.filesByPath." error; otherwise the context carries the project's structure, component map and graphs, the file's record fields, its imports and importers (empty when absent), its parse result's fields (empty when it has none) and a description starting with the file sentence |
| ContextBuilder.EveryFileHasContext | src/core/contextBuilder.js:76-86 | Every key of filesByPath has a context, and looking it up with backslashes normalised gives the same one |
| PathMapper.KeepParts | src/core/helpers/pathMapper.js:103 | A segment survives exactly when it is not a keyword; the order is kept and nothing is added |
| PathMapper.KeepPartsCount | src/core/helpers/pathMapper.js:103 | The filter keeps each non-keyword segment with its multiplicity |
| PathMapper.CleanPath | src/core/helpers/pathMapper.js:97-105 | Characterised by CleanPathSegments: the result splits back into exactly the segments not removed |
| PathMapper.CleanPathSegments | src/core/helpers/pathMapper.js:97-105 | Splitting the cleaned path on '/' gives back exactly the kept segments |
| PathMapper.DetermineNewPath | src/core/helpers/pathMapper.js:26-91 | Characterised by DetermineNewPathByRules: the first matching folder rule of the table decides the new path |
| PathMapper.DetermineNewPathByRules | src/core/helpers/pathMapper.js:26-91 | The chain of conditions is the folder-rule table tried in order: the first matching rule decides, and the name and entry rules apply only when none matches |
| PathMapper.FolderRuleDecides | src/core/helpers/pathMapper.js:33-68 | When rule i is the first match, the destination is its root plus the cleaned path with its extension replaced |
| PathMapper.IsInFolder | src/core/helpers/pathMapper.js:93-95 | Any segment counts, the file name included; RuleHits ties each rule of the table to this test |
| PathMapper.RuleHits | src/core/helpers/pathMapper.js:34-66 | Each table rule matches exactly when the source's `isInFolder` test for that branch holds |
| PathMapper.NoFolderRule | src/core/helpers/pathMapper.js:70-90 | With no folder keyword present, the name and entry rules decide |
| PathMapper.DestinationRoot | src/core/helpers/pathMapper.js:26-91 | Every destination starts with one of app/, components/, hooks/, services/, utils/, context/, assets/ or src/ |
| PathMapper.ApplyEnding | src/core/helpers/pathMapper.js:37-67 | Under a folder rule, a `.js`/`.jsx` file gets the rule's extension; any other file keeps its name at the end of root/cleaned path |
| PathMapper.PagesBeforeComponents | src/core/helpers/pathMapper.js:34-39 | `pages/components/X.jsx` goes to `app/components/X.tsx`: the pages rule wins and only its keywords are removed |
| PathMapper.HookByName | src/core/helpers/pathMapper.js:71-73 | A `use…` base name goes to `hooks/<file name>` with `.js` turned into `.ts`, while a `.jsx` ending stays |
| PathMapper.ScreenByName | src/core/helpers/pathMapper.js:75-77 | A `…Screen`/`…Page` base name goes to `app/<file name>` with `.js`/`.jsx` turned into `.tsx` |
| PathMapper.NameRulesIgnoreDirectory | src/core/helpers/pathMapper.js:71-77 | The name rules drop the directory, so two such files in different directories get the same destination and the mapping is not one-to-one |
| PathMapper.EntryFiles | src/core/helpers/pathMapper.js:81-87 | `App.js`/`App.jsx` go to `app/index.tsx`; `main.js`, `main.jsx` and `index.js` go to `app/_layout.tsx` |
| PathMapper.MirrorUnderSrc | src/core/helpers/pathMapper.js:89-90 | Otherwise the path is mirrored under `src/` with `.js` turned into `.ts` and `.jsx` into `.tsx` |
| PathMapper.ReplaceBoth | src/core/helpers/pathMapper.js:90 | The second replacement never undoes the first |
| PathMapper.FallbackPath | src/core/helpers/pathMapper.js:70-90 | Without a folder rule the destination starts with hooks/, app/ or src/ |
| PathMapper.GenerateMap | src/core/helpers/pathMapper.js:9-19 | The map has one key per distinct relativeToSrc in order of first occurrence, exactly the scanned paths, each mapped to its destination |
| Planner.DepsFirstSnoc | src/core/phases/planner.js:62-68 | Emitting a node after all its dependencies keeps every dependency before its dependant |
| Planner.BackEdgeIsCycle | src/core/phases/planner.js:56 | Meeting a node that is still in progress means the graph has a cycle |
| Planner.PushInv | src/core/phases/planner.js:59 | Marking a node in progress keeps the search invariant |
| Planner.PopInv | src/core/phases/planner.js:66-68 | Finishing a node whose dependencies are settled keeps the search invariant |
| Planner.AllNodesEmitted | src/core/phases/planner.js:71-75 | Once every key is visited, the output holds exactly the graph's nodes and is closed under dependencies |
| Planner.NodesAreReachable | src/core/phases/planner.js:61-73 | A node is a key or some key's dependency exactly when the search from the keys reaches it |
| Planner.Sorter.Visit | src/core/phases/planner.js:55-58 | A node in progress or already visited is skipped; otherwise it ends visited and the output only grows |
| Planner.Sorter.Expand | src/core/phases/planner.js:59-68 | After its dependencies are visited, the node is finished and is the last one emitted |
| Planner.Sorter.VisitEach | src/core/phases/planner.js:61-64 | Each dependency ends visited or in progress on the current path |
| Planner.Planner.TopologicalSort | src/core/phases/planner.js:50-76 | Each node of the graph is emitted exactly once, nothing else is emitted, and every key and every dependency of an emitted node is emitted; on an acyclic graph every dependency comes before its dependant |
| Planner.Planner.Plan | src/core/phases/planner.js:15-41 | The path map is well formed; without files it is empty, otherwise its keys are the distinct relative paths of the files, each mapped to its `determineNewPath`; the files are the topological order of the dependency graph, and the strategy text is fixed |
| Analyzer.Deps | src/core/phases/analyzer.js:42 | The merged dependencies hold every package of either object, with the development version winning on a clash |
| Analyzer.Detected | src/core/phases/analyzer.js:44-47 | A technology is detected exactly when one of its packages is present with a non-empty version; detections follow the push order |
| Analyzer.ReduxDetected | src/core/phases/analyzer.js:44 | Redux is detected iff react-redux or @reduxjs/toolkit is present |
| Analyzer.DetectTechStack | src/core/phases/analyzer.js:41-50 | The stack is the detected names joined with ", ", or "React (Standard)" when none is detected |
| Analyzer.DetectStyleSystem | src/core/phases/analyzer.js:52-56 | "NativeWind" exactly when tailwindcss or nativewind is present, "StyleSheet" otherwise |
| Analyzer.SuggestNavigation | src/core/phases/analyzer.js:58-61 | Always Stack Navigation then Tab Navigation |
| Analyzer.Analyze | src/core/phases/analyzer.js:19-39 | A missing package.json counts as one without dependencies; the context combines the three detections with the project path |
| Analyzer.NoDependencies | src/core/phases/analyzer.js:23-29 | Without dependencies nothing is detected and the style system is StyleSheet |
| StateManager.StateManager.constructor | src/core/stateManager.js:31 | A fresh state records nothing: every file is PENDING and not converted |
| StateManager.StateManager.GetStatus | src/core/stateManager.js:82-84 | The recorded status, or PENDING for a file never recorded |
| StateManager.StateManager.IsConverted | src/core/stateManager.js:74-76 | Converted iff the status is COMPLETED |
| StateManager.StateManager.UpdateStatus | src/core/stateManager.js:45-53 | Records the status for the file and changes no other file's status |
| StateManager.StateManager.MarkAsComplete | src/core/stateManager.js:58-60 | Afterwards the file counts as converted |
| StateManager.StateManager.MarkAsError | src/core/stateManager.js:66-68 | Afterwards the file is in ERROR and not converted |
| CleanAIResponse.Trim | src/core/helpers/cleanAIResponse.js:4 | The result has no leading or trailing white space and is unchanged when already trimmed |
| CleanAIResponse.TrimStart | src/core/helpers/cleanAIResponse.js:4 | Removes exactly the leading white space |
| CleanAIResponse.TrimEnd | src/core/helpers/cleanAIResponse.js:17 | Removes exactly the trailing white space |
| CleanAIResponse.FindFrom | src/core/helpers/cleanAIResponse.js:7 | The first occurrence at or after the start position, or -1 when there is none |
| CleanAIResponse.RemoveFencedBlocks | src/core/helpers/cleanAIResponse.js:7 | Characterised by FencePairRemoved: a fence, its content and the next fence go |
| CleanAIResponse.FencePairRemoved | src/core/helpers/cleanAIResponse.js:7 | The lazy fenced-block pattern removes a fence, its content and the next fence, and keeps the text before |
| CleanAIResponse.FencePairAlone | src/core/helpers/cleanAIResponse.js:7-8 | An answer that is one fenced block cleans to the empty string |
| CleanAIResponse.RemoveAllLeavesNone | src/core/helpers/cleanAIResponse.js:8 | No stray fence survives the second replacement |
| CleanAIResponse.StripLead | src/core/helpers/cleanAIResponse.js:11-12 | The result is a suffix of the input; StripLeadRemovesLeadIn says which suffix |
| CleanAIResponse.StripLeadRemovesLeadIn | src/core/helpers/cleanAIResponse.js:11-12 | Only a lead-in at the very start is removed: the word in any ASCII case followed by text up to the first ':' on the first line; and when such a lead-in is present, exactly it is removed |
| CleanAIResponse.RemoveLineComments | src/core/helpers/cleanAIResponse.js:15 | The result is no longer than the input; RemoveLineCommentsLeavesNone shows no `//` survives, NoCommentKept and LineCommentRemoved show what stays |
| CleanAIResponse.NoCommentKept | src/core/helpers/cleanAIResponse.js:15 | Text without `//` is left unchanged |
| CleanAIResponse.LineCommentRemoved | src/core/helpers/cleanAIResponse.js:15 | A comment removes only `//` and the rest of its line: the text before it, the line terminator and the following lines stay |
| CleanAIResponse.RemoveLineCommentsLeavesNone | src/core/helpers/cleanAIResponse.js:15 | No `//` survives the comment removal |
| CleanAIResponse.CommentsKeepNone | src/core/helpers/cleanAIResponse.js:15 | Comment removal does not create a run of backquotes |
| CleanAIResponse.CleanAIResponse | src/core/helpers/cleanAIResponse.js:1-17 | An empty answer gives the empty string; every result is trimmed and contains neither a fence nor `//` |

## Left out

- Reading the disk (`fs.readdir`, `fs.readFile`, `package.json`, the state file) is not modelled: directory listings, file contents, parsed trees and the parsed package.json are inputs. A missing listing or a failed parse is an `Err`.
- The Babel parser and `@babel/traverse` are not modelled: the syntax tree is an input datatype, and traversal is its pre-order.
- Writing and loading the state file, timestamps (`lastUpdated`), `getState` and the "starting fresh" fallback of `_loadState` are not modelled; only the in-memory status map is.
- StateManager.StateManager.UpdateStatus: the error message is only printed by the source, so the model does not store it.
- Console output, the AI clients, prompt building, the executor, the native writer and the command line are not modelled: they perform I/O or network calls.
- The Planner constructor's `globalContext` argument is not modelled because `plan` never reads it.
- Windows path separators are not modelled: `path` is modelled for POSIX, where `normalizePath` does nothing.
- `absolutePath` and `relativeToProject` are carried through but not related to the project root.
- JavaScript's ordering of integer-like object keys before other keys is not modelled: keys keep insertion order. Inherited prototype keys (such as `constructor`) are not modelled either.
- AstParser.IsReactComponent: the upper-case test maps ASCII letters only. JavaScript's `toUpperCase` applies the full Unicode case mapping, so a name such as `éclair` counts as a component here but not in the source. Unicode case mapping and UTF-16 code units are not modelled.
- AstParser.ExportsOf: an exported declaration whose `id` is a string literal (`declare module "m"`) is recorded by the source with an undefined name; the model has no node kind for it.
- CleanAIResponse.StripLead: the case-insensitive match covers ASCII letters only, as JavaScript does for a regular expression without the `u` flag. Other case mappings are not modelled.
- CleanAIResponse.CleanAIResponse: the end-to-end result for a fenced answer is proved for one fenced block only (FencePairAlone); for several blocks, only the absence of fences and `//` is proved.
- Analyzer.Deps: non-string dependency values in package.json are not modelled. Versions are strings, and a version counts as present when it is non-empty.
