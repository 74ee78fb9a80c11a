/** `scanProject`: discovery of the source files under the source root,
    with directory pruning, name and extension filters, test-file
    detection, and the project structure tree. The directory listing that
    `fs.readdir` returns is an input here, as an in-memory tree. */
module FileScanner {
  import opened Wrappers
  import opened Seqs
  import opened Strings
  import opened NodePath

  /** An entry of a directory listing. `OtherEntry` is anything that is
      neither a directory nor a regular file (a symbolic link, a socket). */
  datatype Entry =
    | FileEntry(name: string)
    | DirEntry(name: string, entries: seq<Entry>)
    | OtherEntry(name: string)

  datatype Config = Config(srcDir: string, extensions: seq<string>, ignoreDirs: seq<string>, ignoreFiles: seq<string>)

  /** Caller options: an absent field keeps the default. */
  datatype Options = Options(
    srcDir: Option<string>,
    extensions: Option<seq<string>>,
    ignoreDirs: Option<seq<string>>,
    ignoreFiles: Option<seq<string>>)

  const DefaultExtensions: seq<string> := [".js", ".jsx", ".ts", ".tsx"]

  const DefaultConfig: Config := Config(
    "src",
    DefaultExtensions,
    ["node_modules", ".git", "dist", "build", ".next", ".expo", "android", "ios"],
    [])

  const NoOptions: Options := Options(None, None, None, None)

  /** `{ ...DEFAULT_OPTIONS, ...options }`. */
  function MergeOptions(o: Options): Config
  {
    Config(
      o.srcDir.GetOr(DefaultConfig.srcDir),
      o.extensions.GetOr(DefaultConfig.extensions),
      o.ignoreDirs.GetOr(DefaultConfig.ignoreDirs),
      o.ignoreFiles.GetOr(DefaultConfig.ignoreFiles))
  }

  /** Without options the defaults apply; a field given by the caller
      replaces the default and the others stay. */
  lemma MergeOverridesFieldByField(o: Options)
    ensures MergeOptions(NoOptions) == DefaultConfig
    ensures o.srcDir.Some? ==> MergeOptions(o).srcDir == o.srcDir.value
    ensures o.srcDir.None? ==> MergeOptions(o).srcDir == "src"
    ensures o.extensions.Some? ==> MergeOptions(o).extensions == o.extensions.value
    ensures o.extensions.None? ==> MergeOptions(o).extensions == DefaultExtensions
    ensures o.ignoreDirs.Some? ==> MergeOptions(o).ignoreDirs == o.ignoreDirs.value
    ensures o.ignoreDirs.None? ==> MergeOptions(o).ignoreDirs == ["node_modules", ".git", "dist", "build", ".next", ".expo", "android", "ios"]
    ensures o.ignoreFiles.Some? ==> MergeOptions(o).ignoreFiles == o.ignoreFiles.value
    ensures o.ignoreFiles.None? ==> MergeOptions(o).ignoreFiles == []
  {
  }

  /** The test-file suffixes: ".test." or ".spec." and a default extension. */
  predicate IsTestFile(name: string)
  {
    EndsWith(name, ".test.js") || EndsWith(name, ".spec.js") ||
    EndsWith(name, ".test.jsx") || EndsWith(name, ".spec.jsx") ||
    EndsWith(name, ".test.ts") || EndsWith(name, ".spec.ts") ||
    EndsWith(name, ".test.tsx") || EndsWith(name, ".spec.tsx")
  }

  /** A test file has one of the default extensions. */
  lemma TestFileExtension(name: string)
    requires IsTestFile(name)
    ensures ExtName(name) in DefaultExtensions
  {
    var js, jsx, ts, tsx := ".js", ".jsx", ".ts", ".tsx";
    assert js in DefaultExtensions && jsx in DefaultExtensions && ts in DefaultExtensions && tsx in DefaultExtensions;
    if EndsWith(name, ".test.js") || EndsWith(name, ".spec.js") {
      assert ".test" + js == ".test.js" && ".spec" + js == ".spec.js";
      TestSuffixExt(name, js);
    } else if EndsWith(name, ".test.jsx") || EndsWith(name, ".spec.jsx") {
      assert ".test" + jsx == ".test.jsx" && ".spec" + jsx == ".spec.jsx";
      TestSuffixExt(name, jsx);
    } else if EndsWith(name, ".test.ts") || EndsWith(name, ".spec.ts") {
      assert ".test" + ts == ".test.ts" && ".spec" + ts == ".spec.ts";
      TestSuffixExt(name, ts);
    } else {
      assert ".test" + tsx == ".test.tsx" && ".spec" + tsx == ".spec.tsx";
      TestSuffixExt(name, tsx);
    }
  }

  /** A name ending in ".test<ext>" or ".spec<ext>" has extension `ext`. */
  lemma TestSuffixExt(name: string, ext: string)
    requires ext in DefaultExtensions
    requires EndsWith(name, ".test" + ext) || EndsWith(name, ".spec" + ext)
    ensures ExtName(name) == ext
  {
    var d := |name| - |ext|;
    assert name[d..] == ext;
    assert name[d] == '.';
    assert forall j :: d < j < |name| ==> name[j] != '.' by {
      forall j | d < j < |name| ensures name[j] != '.' {
        assert name[j] == ext[j - d];
      }
    }
    assert name[d - 1] != '.';
    assert LastIndexOf(name, '.') == d;
  }

  /** The filters a file entry must pass. */
  predicate Kept(name: string, config: Config)
  {
    name !in config.ignoreFiles && ExtName(name) in config.extensions
  }

  /** What is pushed for a kept file: `dir` is the directory's full path,
      `prefix` the directories from the source root down to it. */
  datatype FileRecord = FileRecord(
    absolutePath: string,
    relativeToSrc: string,
    relativeToProject: string,
    filename: string,
    ext: string,
    isTestFile: bool,
    segments: seq<string>)

  function MakeRecord(dir: string, prefix: seq<string>, name: string, config: Config): (r: FileRecord)
    ensures r.filename == name && r.ext == ExtName(name)
    ensures Join(r.segments, "/") == r.relativeToSrc
    ensures '/' !in name ==> r.relativeToSrc == Join(prefix + [name], "/")
  {
    var rel := ToPosix(Join(prefix + [name], "/"));
    JoinSplit(rel, '/');
    FileRecord(
      PathJoin(dir, name),
      rel,
      ToPosix(PathJoin(config.srcDir, rel)),
      name,
      ExtName(name),
      IsTestFile(name),
      Split(rel, '/'))
  }

  /** The records `collectFiles` produces for a listing, in listing order,
      a directory's records spliced in at its position. */
  function Collected(dir: string, prefix: seq<string>, entries: seq<Entry>, config: Config): seq<FileRecord>
    decreases entries
  {
    if entries == [] then []
    else
      Collected(dir, prefix, entries[..|entries| - 1], config)
      + CollectedEntry(dir, prefix, entries[|entries| - 1], config)
  }

  function CollectedEntry(dir: string, prefix: seq<string>, e: Entry, config: Config): seq<FileRecord>
    decreases e
  {
    match e
    case DirEntry(name, children) =>
      if name in config.ignoreDirs then []
      else Collected(PathJoin(dir, name), prefix + [name], children, config)
    case FileEntry(name) =>
      if Kept(name, config) then [MakeRecord(dir, prefix, name, config)] else []
    case OtherEntry(_) => []
  }

  /** `collectFiles(dir, config)` over the listing `entries` of `dir`. */
  method CollectFiles(dir: string, prefix: seq<string>, entries: seq<Entry>, config: Config)
    returns (result: seq<FileRecord>)
    ensures result == Collected(dir, prefix, entries, config)
    decreases entries
  {
    result := [];
    var i := 0;
    while i < |entries|
      invariant 0 <= i <= |entries|
      invariant result == Collected(dir, prefix, entries[..i], config)
    {
      assert entries[..i + 1][..i] == entries[..i];
      match entries[i] {
        case DirEntry(name, children) =>
          if name !in config.ignoreDirs {
            var sub := CollectFiles(PathJoin(dir, name), prefix + [name], children, config);
            result := result + sub;
          }
        case FileEntry(name) =>
          if name !in config.ignoreFiles {
            var ext := ExtName(name);
            if ext in config.extensions {
              result := result + [MakeRecord(dir, prefix, name, config)];
            }
          }
        case OtherEntry(_) =>
      }
      i := i + 1;
    }
    assert entries[..i] == entries;
  }

  // ---- Pruning is filtering ----

  /** A file anywhere below a directory: the directories leading to it and its name. */
  datatype FileAt = FileAt(dirs: seq<string>, name: string)

  /** Every file below a listing, ignored directories included, in listing order. */
  function AllFiles(entries: seq<Entry>): seq<FileAt>
    decreases entries
  {
    if entries == [] then []
    else AllFiles(entries[..|entries| - 1]) + AllFilesEntry(entries[|entries| - 1])
  }

  function AllFilesEntry(e: Entry): seq<FileAt>
    decreases e
  {
    match e
    case DirEntry(name, children) => Under(name, AllFiles(children))
    case FileEntry(name) => [FileAt([], name)]
    case OtherEntry(_) => []
  }

  function Under(name: string, fs: seq<FileAt>): (r: seq<FileAt>)
    ensures |r| == |fs|
    ensures forall i :: 0 <= i < |fs| ==> r[i] == FileAt([name] + fs[i].dirs, fs[i].name)
  {
    if fs == [] then [] else Under(name, fs[..|fs| - 1]) + [FileAt([name] + fs[|fs| - 1].dirs, fs[|fs| - 1].name)]
  }

  /** The file is below no ignored directory and passes the file filters. */
  predicate Selected(f: FileAt, config: Config)
  {
    (forall i :: 0 <= i < |f.dirs| ==> f.dirs[i] !in config.ignoreDirs) && Kept(f.name, config)
  }

  function Select(fs: seq<FileAt>, config: Config): seq<FileAt>
  {
    if fs == [] then []
    else Select(fs[..|fs| - 1], config) + (if Selected(fs[|fs| - 1], config) then [fs[|fs| - 1]] else [])
  }

  /** The full path of the directory reached from `dir` through `dirs`. */
  function DirOf(dir: string, dirs: seq<string>): string
    decreases |dirs|
  {
    if dirs == [] then dir else DirOf(PathJoin(dir, dirs[0]), dirs[1..])
  }

  function Records(dir: string, prefix: seq<string>, fs: seq<FileAt>, config: Config): seq<FileRecord>
  {
    if fs == [] then []
    else
      var f := fs[|fs| - 1];
      Records(dir, prefix, fs[..|fs| - 1], config) + [MakeRecord(DirOf(dir, f.dirs), prefix + f.dirs, f.name, config)]
  }

  lemma {:induction false} SelectAppend(a: seq<FileAt>, b: seq<FileAt>, config: Config)
    ensures Select(a + b, config) == Select(a, config) + Select(b, config)
    decreases |b|
  {
    if b == [] {
      assert a + b == a;
    } else {
      assert (a + b)[..|a + b| - 1] == a + b[..|b| - 1];
      SelectAppend(a, b[..|b| - 1], config);
    }
  }

  lemma {:induction false} RecordsAppend(dir: string, prefix: seq<string>, a: seq<FileAt>, b: seq<FileAt>, config: Config)
    ensures Records(dir, prefix, a + b, config) == Records(dir, prefix, a, config) + Records(dir, prefix, b, config)
    decreases |b|
  {
    if b == [] {
      assert a + b == a;
    } else {
      assert (a + b)[..|a + b| - 1] == a + b[..|b| - 1];
      RecordsAppend(dir, prefix, a, b[..|b| - 1], config);
    }
  }

  /** Below an ignored directory nothing is selected. */
  lemma {:induction false} SelectUnderIgnored(name: string, fs: seq<FileAt>, config: Config)
    requires name in config.ignoreDirs
    ensures Select(Under(name, fs), config) == []
  {
    if fs != [] {
      assert Under(name, fs)[..|fs| - 1] == Under(name, fs[..|fs| - 1]);
      SelectUnderIgnored(name, fs[..|fs| - 1], config);
      assert Under(name, fs)[|fs| - 1].dirs[0] == name;
    }
  }

  /** Below a directory that is not ignored, selection looks only further down. */
  lemma {:induction false} SelectUnder(name: string, fs: seq<FileAt>, config: Config)
    requires name !in config.ignoreDirs
    ensures Select(Under(name, fs), config) == Under(name, Select(fs, config))
  {
    if fs != [] {
      var init := fs[..|fs| - 1];
      var f := fs[|fs| - 1];
      assert Under(name, fs)[..|fs| - 1] == Under(name, init);
      SelectUnder(name, init, config);
      var g := FileAt([name] + f.dirs, f.name);
      assert Selected(g, config) == Selected(f, config) by {
        assert forall i :: 1 <= i < |g.dirs| ==> g.dirs[i] == f.dirs[i - 1];
        assert forall i :: 0 <= i < |f.dirs| ==> f.dirs[i] == g.dirs[i + 1];
      }
      if Selected(f, config) {
        assert Select(fs, config) == Select(init, config) + [f];
        assert Under(name, Select(fs, config))[..|Select(fs, config)| - 1] == Under(name, Select(init, config));
      } else {
        assert Select(fs, config) == Select(init, config);
      }
    }
  }

  lemma {:induction false} RecordsUnder(dir: string, prefix: seq<string>, name: string, fs: seq<FileAt>, config: Config)
    ensures Records(dir, prefix, Under(name, fs), config) == Records(PathJoin(dir, name), prefix + [name], fs, config)
  {
    if fs != [] {
      var init := fs[..|fs| - 1];
      var f := fs[|fs| - 1];
      assert Under(name, fs)[..|fs| - 1] == Under(name, init);
      RecordsUnder(dir, prefix, name, init, config);
      RecordUnderLast(dir, prefix, name, f, config);
    }
  }

  lemma RecordUnderLast(dir: string, prefix: seq<string>, name: string, f: FileAt, config: Config)
    ensures MakeRecord(DirOf(dir, [name] + f.dirs), prefix + ([name] + f.dirs), f.name, config)
         == MakeRecord(DirOf(PathJoin(dir, name), f.dirs), (prefix + [name]) + f.dirs, f.name, config)
  {
    assert [name] + f.dirs != [] && ([name] + f.dirs)[1..] == f.dirs;
    assert prefix + ([name] + f.dirs) == prefix + [name] + f.dirs;
  }

  /** Pruning an ignored directory during the walk selects exactly the
      files that lie below no ignored directory and pass the file filters,
      in the walk's order. */
  lemma {:induction false} PruningIsFiltering(dir: string, prefix: seq<string>, entries: seq<Entry>, config: Config)
    ensures Collected(dir, prefix, entries, config) == Records(dir, prefix, Select(AllFiles(entries), config), config)
    decreases entries
  {
    if entries != [] {
      var init := entries[..|entries| - 1];
      var e := entries[|entries| - 1];
      PruningIsFiltering(dir, prefix, init, config);
      PruningIsFilteringEntry(dir, prefix, e, config);
      SelectAppend(AllFiles(init), AllFilesEntry(e), config);
      RecordsAppend(dir, prefix, Select(AllFiles(init), config), Select(AllFilesEntry(e), config), config);
    }
  }

  lemma {:induction false} PruningIsFilteringEntry(dir: string, prefix: seq<string>, e: Entry, config: Config)
    ensures CollectedEntry(dir, prefix, e, config) == Records(dir, prefix, Select(AllFilesEntry(e), config), config)
    decreases e
  {
    match e
    case DirEntry(name, children) =>
      if name in config.ignoreDirs {
        SelectUnderIgnored(name, AllFiles(children), config);
      } else {
        PruningIsFiltering(PathJoin(dir, name), prefix + [name], children, config);
        SelectUnder(name, AllFiles(children), config);
        RecordsUnder(dir, prefix, name, Select(AllFiles(children), config), config);
      }
    case FileEntry(name) =>
      assert Select([FileAt([], name)], config) == if Kept(name, config) then [FileAt([], name)] else [];
      assert prefix + [] == prefix;
    case OtherEntry(_) =>
  }

  /** Records come from selected files: each passes the file filters and
      lies below no ignored directory. */
  lemma {:induction false} RecordsFromSelected(dir: string, prefix: seq<string>, fs: seq<FileAt>, config: Config, r: FileRecord)
      returns (f: FileAt)
    requires r in Records(dir, prefix, Select(fs, config), config)
    ensures f in fs && Selected(f, config) && r == MakeRecord(DirOf(dir, f.dirs), prefix + f.dirs, f.name, config)
  {
    var init, last := fs[..|fs| - 1], fs[|fs| - 1];
    var sel := Select(fs, config);
    if Selected(last, config) && r !in Records(dir, prefix, Select(init, config), config) {
      assert sel == Select(init, config) + [last];
      assert sel[..|sel| - 1] == Select(init, config);
      f := last;
    } else {
      if !Selected(last, config) {
        assert sel == Select(init, config) + [];
        assert Select(init, config) + [] == Select(init, config);
      }
      f := RecordsFromSelected(dir, prefix, init, config, r);
    }
  }

  /** Every collected file passes the name and extension filters, and no
      directory on its way down is an ignored one. */
  lemma CollectedSound(dir: string, entries: seq<Entry>, config: Config, r: FileRecord)
    requires r in Collected(dir, [], entries, config)
    ensures r.filename !in config.ignoreFiles
    ensures r.ext in config.extensions && r.ext == ExtName(r.filename)
    ensures exists f :: f in AllFiles(entries) && Selected(f, config) && r == MakeRecord(DirOf(dir, f.dirs), f.dirs, f.name, config)
  {
    var f := CollectedFrom(dir, entries, config, r);
    assert Kept(f.name, config);
  }

  /** The selected file a collected record was made from. */
  lemma CollectedFrom(dir: string, entries: seq<Entry>, config: Config, r: FileRecord) returns (f: FileAt)
    requires r in Collected(dir, [], entries, config)
    ensures f in AllFiles(entries) && Selected(f, config) && r == MakeRecord(DirOf(dir, f.dirs), f.dirs, f.name, config)
  {
    PruningIsFiltering(dir, [], entries, config);
    f := RecordsFromSelected(dir, [], AllFiles(entries), config, r);
    assert [] + f.dirs == f.dirs;
  }

  // ---- A real listing gives prefix-free paths ----

  /** What `fs.readdir` guarantees of a listing: the names of one directory
      are distinct and none holds the separator, at every level. */
  ghost predicate ProperListing(entries: seq<Entry>)
    decreases entries
  {
    (forall i, j :: 0 <= i < j < |entries| ==> entries[i].name != entries[j].name)
    && (forall i :: 0 <= i < |entries| ==> '/' !in entries[i].name)
    && (forall i :: 0 <= i < |entries| && entries[i].DirEntry? ==> ProperListing(entries[i].entries))
  }

  /** The segments from the listing's directory down to the file. */
  function FullPath(f: FileAt): seq<string>
  {
    f.dirs + [f.name]
  }

  /** No segment of a file's path holds the separator. */
  ghost predicate PlainSegments(f: FileAt)
  {
    '/' !in f.name && forall k :: 0 <= k < |f.dirs| ==> '/' !in f.dirs[k]
  }

  /** A file below a listing is below one of its entries. */
  lemma {:induction false} AllFilesMember(entries: seq<Entry>, f: FileAt) returns (i: nat)
    requires f in AllFiles(entries)
    ensures i < |entries| && f in AllFilesEntry(entries[i])
    decreases entries
  {
    var init := entries[..|entries| - 1];
    if f in AllFilesEntry(entries[|entries| - 1]) {
      i := |entries| - 1;
    } else {
      i := AllFilesMember(init, f);
    }
  }

  /** The path of a file below an entry starts with the entry's name. */
  lemma EntryHead(e: Entry, f: FileAt)
    requires f in AllFilesEntry(e)
    ensures FullPath(f)[0] == e.name
  {
    if e.DirEntry? {
      var k :| 0 <= k < |AllFilesEntry(e)| && AllFilesEntry(e)[k] == f;
      assert f.dirs[0] == e.name;
    }
  }

  /** In a proper listing no file's path is a proper prefix of another's:
      a file and a directory on the way to another file would be two
      entries with one name in the same directory. */
  lemma {:induction false} ListingPrefixFree(entries: seq<Entry>)
    requires ProperListing(entries)
    ensures forall f :: f in AllFiles(entries) ==> PlainSegments(f)
    ensures forall f, g :: f in AllFiles(entries) && g in AllFiles(entries) ==> !ProperPrefix(FullPath(f), FullPath(g))
    decreases entries, 1
  {
    forall f | f in AllFiles(entries) ensures PlainSegments(f) {
      var i := AllFilesMember(entries, f);
      EntryPrefixFree(entries[i]);
    }
    forall f, g | f in AllFiles(entries) && g in AllFiles(entries)
      ensures !ProperPrefix(FullPath(f), FullPath(g))
    {
      var i := AllFilesMember(entries, f);
      var j := AllFilesMember(entries, g);
      EntryHead(entries[i], f);
      EntryHead(entries[j], g);
      if i == j {
        EntryPrefixFree(entries[i]);
      } else {
        assert entries[i].name != entries[j].name by {
          if i < j { assert entries[i].name != entries[j].name; } else { assert entries[j].name != entries[i].name; }
        }
      }
    }
  }

  lemma {:induction false} EntryPrefixFree(e: Entry)
    requires '/' !in e.name
    requires e.DirEntry? ==> ProperListing(e.entries)
    ensures forall f :: f in AllFilesEntry(e) ==> PlainSegments(f)
    ensures forall f, g :: f in AllFilesEntry(e) && g in AllFilesEntry(e) ==> !ProperPrefix(FullPath(f), FullPath(g))
    decreases e, 0
  {
    match e
    case FileEntry(name) =>
    case OtherEntry(_) =>
    case DirEntry(name, children) =>
      ListingPrefixFree(children);
      var fs := AllFiles(children);
      assert AllFilesEntry(e) == Under(name, fs);
      forall f | f in Under(name, fs) ensures PlainSegments(f) {
        var f' := UnderMember(name, fs, f);
      }
      forall f, g | f in Under(name, fs) && g in Under(name, fs)
        ensures !ProperPrefix(FullPath(f), FullPath(g))
      {
        var f' := UnderMember(name, fs, f);
        var g' := UnderMember(name, fs, g);
        ConsPrefix(name, FullPath(f'), FullPath(g'));
      }
  }

  /** A file under a directory is a file of its listing, one level down. */
  lemma UnderMember(name: string, fs: seq<FileAt>, f: FileAt) returns (f': FileAt)
    requires f in Under(name, fs)
    ensures f' in fs && FullPath(f) == [name] + FullPath(f')
    ensures '/' !in name && PlainSegments(f') ==> PlainSegments(f)
  {
    var k :| 0 <= k < |fs| && Under(name, fs)[k] == f;
    f' := fs[k];
    assert f.dirs == [name] + f'.dirs;
  }

  /** A common first segment does not change proper-prefix-ness. */
  lemma ConsPrefix(name: string, p: seq<string>, q: seq<string>)
    ensures ProperPrefix([name] + p, [name] + q) ==> ProperPrefix(p, q)
  {
    if ProperPrefix([name] + p, [name] + q) {
      assert q[..|p|] == ([name] + q)[..|p| + 1][1..];
    }
  }

  /** Filtering keeps only files that were there. */
  lemma {:induction false} SelectMember(fs: seq<FileAt>, config: Config, f: FileAt)
    requires f in Select(fs, config)
    ensures f in fs
  {
    var init := fs[..|fs| - 1];
    if f !in Select(init, config) {
      assert f == fs[|fs| - 1];
    } else {
      SelectMember(init, config, f);
    }
  }

  /** The structure path of a collected record is the path of the listing
      file it was made from. */
  lemma CollectedPath(dir: string, entries: seq<Entry>, config: Config, r: FileRecord) returns (f: FileAt)
    requires ProperListing(entries)
    requires r in Collected(dir, [], entries, config)
    ensures f in AllFiles(entries) && Split(r.relativeToSrc, '/') == FullPath(f)
  {
    f := CollectedFrom(dir, entries, config, r);
    ListingPrefixFree(entries);
    assert PlainSegments(f);
    var parts := FullPath(f);
    assert forall k :: 0 <= k < |parts| ==> '/' !in parts[k] by {
      forall k | 0 <= k < |parts| ensures '/' !in parts[k] {
        if k < |f.dirs| { assert parts[k] == f.dirs[k]; } else { assert parts[k] == f.name; }
      }
    }
    SplitJoin(parts, '/');
  }

  /** The files `collectFiles` returns for a proper listing have prefix-free
      paths, so building the structure tree never fails on them. */
  lemma CollectedPrefixFree(dir: string, entries: seq<Entry>, config: Config)
    requires ProperListing(entries)
    ensures PrefixFree(PathsOf(Collected(dir, [], entries, config)))
  {
    var files := Collected(dir, [], entries, config);
    var paths := PathsOf(files);
    ListingPrefixFree(entries);
    forall i, j | 0 <= i < |paths| && 0 <= j < |paths| ensures !ProperPrefix(paths[i], paths[j]) {
      var f := CollectedPath(dir, entries, config, files[i]);
      var g := CollectedPath(dir, entries, config, files[j]);
    }
  }

  // ---- The structure tree ----

  /** A node of the structure tree: a directory's children are in
      first-insertion order. */
  datatype Tree = FileNode(name: string) | DirNode(name: string, children: seq<Tree>)

  /** Position of the child named `part`, or -1. */
  function ChildIndex(children: seq<Tree>, part: string): (i: int)
    ensures -1 <= i < |children|
    ensures i >= 0 ==> children[i].name == part && forall j :: 0 <= j < i ==> children[j].name != part
    ensures i == -1 ==> forall j :: 0 <= j < |children| ==> children[j].name != part
  {
    if children == [] then -1
    else if children[0].name == part then 0
    else
      var i := ChildIndex(children[1..], part);
      if i == -1 then -1 else i + 1
  }

  /** The walk down one file path: a missing node is created (a file at
      the last part, a directory elsewhere), an existing one is entered.
      Entering a file node as a directory is the TypeError the source
      raises when it reads the file node's missing `children`. */
  function Insert(children: seq<Tree>, parts: seq<string>): Option<seq<Tree>>
    requires |parts| >= 1
    decreases |parts|
  {
    var part := parts[0];
    var i := ChildIndex(children, part);
    if i == -1 then
      if |parts| == 1 then Some(children + [FileNode(part)])
      else
        match Insert([], parts[1..])
        case None => None
        case Some(sub) => Some(children + [DirNode(part, sub)])
    else if |parts| == 1 then Some(children)
    else
      match children[i]
      case FileNode(_) => None
      case DirNode(n, cs) =>
        match Insert(cs, parts[1..])
        case None => None
        case Some(cs') => Some(children[i := DirNode(n, cs')])
  }

  /** What the path `q` leads to: nothing, a file (true) or a directory (false). */
  function Kind(children: seq<Tree>, q: seq<string>): Option<bool>
    requires |q| >= 1
    decreases |q|
  {
    var i := ChildIndex(children, q[0]);
    if i == -1 then None
    else if |q| == 1 then Some(children[i].FileNode?)
    else
      match children[i]
      case FileNode(_) => None
      case DirNode(_, cs) => Kind(cs, q[1..])
  }

  predicate ProperPrefix(p: seq<string>, q: seq<string>)
  {
    |p| < |q| && q[..|p|] == p
  }

  function Names(children: seq<Tree>): (ns: seq<string>)
    ensures |ns| == |children|
    ensures forall i :: 0 <= i < |children| ==> ns[i] == children[i].name
  {
    seq(|children|, i requires 0 <= i < |children| => children[i].name)
  }

  /** Sibling names are unique at every level. */
  ghost predicate UniqueNames(children: seq<Tree>)
    decreases children, 1
  {
    Distinct(Names(children)) && AllUnique(children)
  }

  ghost predicate AllUnique(children: seq<Tree>)
    decreases children, 0
  {
    if children == [] then true
    else
      (match children[0] case FileNode(_) => true case DirNode(_, cs) => UniqueNames(cs))
      && AllUnique(children[1..])
  }

  lemma {:induction false} AllUniqueAt(children: seq<Tree>, i: nat)
    requires i < |children|
    ensures AllUnique(children) ==> (children[i].DirNode? ==> UniqueNames(children[i].children))
  {
    if i > 0 {
      AllUniqueAt(children[1..], i - 1);
    }
  }

  lemma {:induction false} AllUniqueUpdate(children: seq<Tree>, i: nat, t: Tree)
    requires i < |children| && AllUnique(children)
    requires t.DirNode? ==> UniqueNames(t.children)
    ensures AllUnique(children[i := t])
  {
    if i > 0 {
      AllUniqueUpdate(children[1..], i - 1, t);
      assert children[i := t][1..] == children[1..][i - 1 := t];
    }
  }

  lemma {:induction false} AllUniqueSnoc(children: seq<Tree>, t: Tree)
    requires AllUnique(children)
    requires t.DirNode? ==> UniqueNames(t.children)
    ensures AllUnique(children + [t])
  {
    if children != [] {
      AllUniqueSnoc(children[1..], t);
      assert (children + [t])[1..] == children[1..] + [t];
    }
  }

  /** Insertion keeps sibling names unique and the existing children in
      their order, appending at most one new child. */
  lemma {:induction false} InsertKeepsShape(children: seq<Tree>, parts: seq<string>)
    requires |parts| >= 1
    requires UniqueNames(children)
    requires Insert(children, parts).Some?
    ensures UniqueNames(Insert(children, parts).value)
    ensures Names(Insert(children, parts).value) == Names(children)
         || Names(Insert(children, parts).value) == Names(children) + [parts[0]]
    decreases |parts|
  {
    var part := parts[0];
    var i := ChildIndex(children, part);
    var r := Insert(children, parts).value;
    if i == -1 {
      var t := if |parts| == 1 then FileNode(part) else DirNode(part, Insert([], parts[1..]).value);
      assert r == children + [t];
      if |parts| > 1 {
        assert UniqueNames([]);
        InsertKeepsShape([], parts[1..]);
      }
      AllUniqueSnoc(children, t);
      assert Names(r) == Names(children) + [part];
    } else if |parts| > 1 {
      var n, cs := children[i].name, children[i].children;
      AllUniqueAt(children, i);
      InsertKeepsShape(cs, parts[1..]);
      AllUniqueUpdate(children, i, DirNode(n, Insert(cs, parts[1..]).value));
      assert Names(r) == Names(children);
    }
  }

  lemma ChildIndexSnoc(children: seq<Tree>, t: Tree, y: string)
    requires ChildIndex(children, t.name) == -1
    ensures ChildIndex(children + [t], y) == if y == t.name then |children| else ChildIndex(children, y)
  {
    var c := children + [t];
    var r := ChildIndex(c, y);
    var r0 := ChildIndex(children, y);
    assert forall j :: 0 <= j < |children| ==> c[j] == children[j];
    assert c[|children|] == t;
    if r0 >= 0 {
      assert c[r0].name == y;
    } else if y == t.name {
      assert c[|children|].name == y;
    }
  }

  lemma ChildIndexUpdate(children: seq<Tree>, i: nat, t: Tree, y: string)
    requires i < |children| && t.name == children[i].name
    ensures ChildIndex(children[i := t], y) == ChildIndex(children, y)
  {
    var r := ChildIndex(children[i := t], y);
    var r0 := ChildIndex(children, y);
    if r >= 0 { assert children[r].name == y; }
    if r0 >= 0 { assert children[i := t][r0].name == y; }
  }

  /** The effect of one insertion on every path: a path that led somewhere
      still leads to the same kind of node; of the others, the inserted
      path now leads to a file and each of its proper prefixes to a
      directory. */
  lemma {:induction false} InsertKind(children: seq<Tree>, parts: seq<string>, q: seq<string>)
    requires |parts| >= 1 && |q| >= 1
    requires Insert(children, parts).Some?
    ensures Kind(Insert(children, parts).value, q) ==
      if Kind(children, q).Some? then Kind(children, q)
      else if q == parts then Some(true)
      else if ProperPrefix(q, parts) then Some(false)
      else None
    decreases |parts|
  {
    var part := parts[0];
    var i := ChildIndex(children, part);
    var r := Insert(children, parts).value;
    if i == -1 {
      var t := if |parts| == 1 then FileNode(part) else DirNode(part, Insert([], parts[1..]).value);
      assert r == children + [t];
      ChildIndexSnoc(children, t, q[0]);
      if q[0] == part {
        assert Kind(children, q).None?;
        if |q| > 1 && |parts| > 1 {
          InsertKind([], parts[1..], q[1..]);
          assert q == parts <==> q[1..] == parts[1..] by {
            if q[1..] == parts[1..] { assert q == [q[0]] + q[1..] && parts == [parts[0]] + parts[1..]; }
          }
          assert ProperPrefix(q, parts) <==> ProperPrefix(q[1..], parts[1..]) by {
            if ProperPrefix(q[1..], parts[1..]) {
              assert parts[..|q|] == [parts[0]] + parts[1..][..|q| - 1];
              assert q == [q[0]] + q[1..];
            }
            if ProperPrefix(q, parts) {
              assert parts[1..][..|q| - 1] == parts[..|q|][1..];
            }
          }
        }
      } else {
        assert !ProperPrefix(q, parts) by {
          if |q| < |parts| { assert parts[..|q|][0] == parts[0]; }
        }
      }
    } else if |parts| == 1 {
      assert !ProperPrefix(q, parts);
      if q == parts { assert Kind(children, q).Some?; }
    } else {
      var n, cs := children[i].name, children[i].children;
      var cs' := Insert(cs, parts[1..]).value;
      assert r == children[i := DirNode(n, cs')];
      ChildIndexUpdate(children, i, DirNode(n, cs'), q[0]);
      if q[0] == part {
        if |q| > 1 {
          InsertKind(cs, parts[1..], q[1..]);
          assert q == parts <==> q[1..] == parts[1..] by {
            if q[1..] == parts[1..] { assert q == [q[0]] + q[1..] && parts == [parts[0]] + parts[1..]; }
          }
          assert ProperPrefix(q, parts) <==> ProperPrefix(q[1..], parts[1..]) by {
            if ProperPrefix(q[1..], parts[1..]) {
              assert parts[..|q|] == [parts[0]] + parts[1..][..|q| - 1];
              assert q == [q[0]] + q[1..];
            }
            if ProperPrefix(q, parts) {
              assert parts[1..][..|q| - 1] == parts[..|q|][1..];
            }
          }
        }
      } else {
        assert !ProperPrefix(q, parts) by {
          if |q| < |parts| { assert parts[..|q|][0] == parts[0]; }
        }
      }
    }
  }

  lemma {:induction false} InsertIntoEmpty(parts: seq<string>)
    ensures |parts| >= 1 ==> Insert([], parts).Some?
    decreases |parts|
  {
    if |parts| > 1 {
      InsertIntoEmpty(parts[1..]);
    }
  }

  /** Insertion fails only where an existing file lies on the way down. */
  lemma {:induction false} InsertFails(children: seq<Tree>, parts: seq<string>)
    requires |parts| >= 1
    requires Insert(children, parts).None?
    ensures exists k :: 1 <= k < |parts| && Kind(children, parts[..k]) == Some(true)
    decreases |parts|
  {
    var part := parts[0];
    var i := ChildIndex(children, part);
    if i == -1 {
      InsertIntoEmpty(parts[1..]);
      assert false;
    } else {
      match children[i]
      case FileNode(_) =>
        assert Kind(children, parts[..1]) == Some(true);
      case DirNode(n, cs) =>
        InsertFails(cs, parts[1..]);
        var k :| 1 <= k < |parts| - 1 && Kind(cs, parts[1..][..k]) == Some(true);
        assert parts[..k + 1][1..] == parts[1..][..k];
        assert Kind(children, parts[..k + 1]) == Some(true);
    }
  }

  /** The paths the tree is built from: each file's `relativeToSrc` split on '/'. */
  function PathsOf(files: seq<FileRecord>): (ps: seq<seq<string>>)
    ensures |ps| == |files|
    ensures forall i :: 0 <= i < |files| ==> ps[i] == Split(files[i].relativeToSrc, '/') && |ps[i]| >= 1
  {
    seq(|files|, i requires 0 <= i < |files| => Split(files[i].relativeToSrc, '/'))
  }

  /** No path is a proper prefix of another: no file stands where another
      file's directory is. `CollectedPrefixFree` shows that the files of a
      proper listing have this property. */
  ghost predicate PrefixFree(paths: seq<seq<string>>)
  {
    forall i, j :: 0 <= i < |paths| && 0 <= j < |paths| ==> !ProperPrefix(paths[i], paths[j])
  }

  /** Every inserted path leads to a node. */
  ghost predicate Reached(children: seq<Tree>, paths: seq<seq<string>>)
  {
    forall p :: p in paths ==> |p| >= 1 && Kind(children, p).Some?
  }

  /** Files stand only at inserted paths. */
  ghost predicate FilesInserted(children: seq<Tree>, paths: seq<seq<string>>)
  {
    forall q :: |q| >= 1 && Kind(children, q) == Some(true) ==> q in paths
  }

  /** Directories stand only on the way to inserted paths. */
  ghost predicate DirsOnTheWay(children: seq<Tree>, paths: seq<seq<string>>)
  {
    forall q :: |q| >= 1 && Kind(children, q) == Some(false) ==> exists p :: p in paths && ProperPrefix(q, p)
  }

  /** The tree holds exactly the inserted paths, with unique names per directory. */
  ghost predicate Holds(children: seq<Tree>, paths: seq<seq<string>>)
  {
    UniqueNames(children) && Reached(children, paths) && FilesInserted(children, paths) && DirsOnTheWay(children, paths)
  }

  lemma InsertReaches(children: seq<Tree>, paths: seq<seq<string>>, p: seq<string>)
    requires |p| >= 1 && Reached(children, paths)
    requires Insert(children, p).Some?
    ensures Reached(Insert(children, p).value, paths + [p])
  {
    forall p' | p' in paths + [p]
      ensures |p'| >= 1 && Kind(Insert(children, p).value, p').Some?
    {
      if p' in paths {
        InsertKind(children, p, p');
      } else {
        InsertKind(children, p, p);
      }
    }
  }

  lemma InsertFiles(children: seq<Tree>, paths: seq<seq<string>>, p: seq<string>)
    requires |p| >= 1 && FilesInserted(children, paths)
    requires Insert(children, p).Some?
    ensures FilesInserted(Insert(children, p).value, paths + [p])
  {
    forall q | |q| >= 1 && Kind(Insert(children, p).value, q) == Some(true)
      ensures q in paths + [p]
    {
      InsertKind(children, p, q);
    }
  }

  lemma InsertDirs(children: seq<Tree>, paths: seq<seq<string>>, p: seq<string>)
    requires |p| >= 1 && DirsOnTheWay(children, paths)
    requires Insert(children, p).Some?
    ensures DirsOnTheWay(Insert(children, p).value, paths + [p])
  {
    forall q | |q| >= 1 && Kind(Insert(children, p).value, q) == Some(false)
      ensures exists p' :: p' in paths + [p] && ProperPrefix(q, p')
    {
      InsertKind(children, p, q);
      if Kind(children, q) == Some(false) {
        var p' :| p' in paths && ProperPrefix(q, p');
        assert p' in paths + [p];
      } else {
        assert p in paths + [p];
      }
    }
  }

  /** A file stays a file, and the inserted path becomes a file unless a
      directory already stands there. */
  lemma InsertKeepsFiles(children: seq<Tree>, p: seq<string>, paths: seq<seq<string>>)
    requires |p| >= 1 && Insert(children, p).Some?
    requires Reached(children, paths) && AllFilesAt(children, paths)
    requires Kind(children, p) != Some(false)
    ensures AllFilesAt(Insert(children, p).value, paths + [p])
  {
    forall q | q in paths + [p]
      ensures Kind(Insert(children, p).value, q) == Some(true)
    {
      InsertKind(children, p, q);
      if q in paths {
        assert Kind(children, q) == Some(true);
      } else {
        assert q == p;
        var k := Kind(children, p);
        assert k.Some? ==> k.value;
      }
    }
  }

  /** When no path is a proper prefix of another, the next path finds no
      directory where its file goes. */
  lemma NoDirectoryInTheWay(children: seq<Tree>, paths: seq<seq<string>>, i: nat)
    requires i < |paths| && PrefixFree(paths)
    requires DirsOnTheWay(children, paths[..i])
    requires |paths[i]| >= 1
    ensures Kind(children, paths[i]) != Some(false)
  {
  }

  /** A failed insertion means some earlier path is a proper prefix of this one. */
  lemma FailureHasCause(children: seq<Tree>, paths: seq<seq<string>>, i: nat)
    requires i < |paths| && |paths[i]| >= 1
    requires FilesInserted(children, paths[..i])
    requires Insert(children, paths[i]).None?
    ensures exists k :: 1 <= k < |paths[i]| && Kind(children, paths[i][..k]) == Some(true)
    ensures ThroughAFile(paths) && !PrefixFree(paths)
  {
    var p := paths[i];
    InsertFails(children, p);
    var k :| 1 <= k < |p| && Kind(children, p[..k]) == Some(true);
    assert p[..k] in paths[..i];
    var j :| 0 <= j < i && paths[j] == p[..k];
    assert ProperPrefix(paths[j], paths[i]);
  }

  lemma InsertStep(children: seq<Tree>, paths: seq<seq<string>>, p: seq<string>)
    requires |p| >= 1 && Holds(children, paths)
    requires Insert(children, p).Some?
    ensures Holds(Insert(children, p).value, paths + [p])
  {
    InsertKeepsShape(children, p);
    InsertReaches(children, paths, p);
    InsertFiles(children, paths, p);
    InsertDirs(children, paths, p);
  }

  /** Every path leads to a file. */
  ghost predicate AllFilesAt(children: seq<Tree>, paths: seq<seq<string>>)
  {
    forall p :: p in paths ==> |p| >= 1 && Kind(children, p) == Some(true)
  }

  /** Some path continues below an earlier path, i.e. through a file. */
  ghost predicate ThroughAFile(paths: seq<seq<string>>)
  {
    exists i, k :: 0 <= i < |paths| && 1 <= k < |paths[i]| && paths[i][..k] in paths[..i]
  }

  /** One iteration of the outer loop of `buildStructureTree`: insert the
      `i`-th path, or fail with the error JavaScript raises when the walk
      reaches a file and reads a child of its missing `children`. */
  method InsertPath(children: seq<Tree>, paths: seq<seq<string>>, i: nat) returns (next: Result<seq<Tree>>)
    requires i < |paths| && |paths[i]| >= 1
    requires Holds(children, paths[..i])
    requires PrefixFree(paths) ==> AllFilesAt(children, paths[..i])
    ensures next.Ok? <==> Insert(children, paths[i]).Some?
    ensures next.Ok? ==> next.value == Insert(children, paths[i]).value
    ensures next.Ok? ==> Holds(next.value, paths[..i + 1])
    ensures next.Ok? && PrefixFree(paths) ==> AllFilesAt(next.value, paths[..i + 1])
    ensures next.Err? ==> ThroughAFile(paths) && !PrefixFree(paths)
  {
    var p := paths[i];
    TakeSnoc(paths, i);
    var inserted := Insert(children, p);
    if inserted.None? {
      FailureHasCause(children, paths, i);
      var k :| 1 <= k < |p| && Kind(children, p[..k]) == Some(true);
      return Err("TypeError: Cannot read properties of undefined (reading '" + p[k] + "')");
    }
    InsertStep(children, paths[..i], p);
    if PrefixFree(paths) {
      NoDirectoryInTheWay(children, paths, i);
      InsertKeepsFiles(children, p, paths[..i]);
    }
    return Ok(inserted.value);
  }

  /** `buildStructureTree(files, srcRoot)`: the root is named after the
      source root; the files' paths are inserted one after the other. */
  method BuildStructureTree(files: seq<FileRecord>, srcRoot: string) returns (r: Result<Tree>)
    ensures r.Ok? ==> r.value.DirNode? && r.value.name == BaseName(srcRoot)
    ensures r.Ok? ==> Holds(r.value.children, PathsOf(files))
    ensures r.Err? ==> ThroughAFile(PathsOf(files)) && !PrefixFree(PathsOf(files))
    ensures PrefixFree(PathsOf(files)) ==> r.Ok? && AllFilesAt(r.value.children, PathsOf(files))
  {
    var paths := PathsOf(files);
    var children: seq<Tree> := [];
    var i := 0;
    while i < |paths|
      invariant 0 <= i <= |paths|
      invariant Holds(children, paths[..i])
      invariant PrefixFree(paths) ==> AllFilesAt(children, paths[..i])
    {
      var next := InsertPath(children, paths, i);
      if next.Err? {
        return Err(next.message);
      }
      children := next.value;
      i := i + 1;
    }
    assert paths[..i] == paths;
    return Ok(DirNode(BaseName(srcRoot), children));
  }

  datatype ScanResult = ScanResult(files: seq<FileRecord>, structure: Tree)

  /** `scanProject(projectRoot, options)`: `listing` is what reading the
      source root yields, `None` when it does not exist (the read throws). */
  method ScanProject(projectRoot: string, options: Options, listing: Option<seq<Entry>>) returns (r: Result<ScanResult>)
    ensures listing.None? ==> r.Err?
    ensures r.Ok? ==> listing.Some? && r.value.files == Collected(PathJoin(projectRoot, MergeOptions(options).srcDir), [], listing.value, MergeOptions(options))
    ensures r.Ok? ==> r.value.structure.DirNode? && Holds(r.value.structure.children, PathsOf(r.value.files))
    ensures listing.Some? && PrefixFree(PathsOf(Collected(PathJoin(projectRoot, MergeOptions(options).srcDir), [], listing.value, MergeOptions(options)))) ==> r.Ok?
    ensures listing.Some? && ProperListing(listing.value) ==> r.Ok? && AllFilesAt(r.value.structure.children, PathsOf(r.value.files))
  {
    var config := MergeOptions(options);
    var srcRoot := PathJoin(projectRoot, config.srcDir);
    if listing.None? {
      return Err("ENOENT: no such file or directory, scandir '" + srcRoot + "'");
    }
    var files := CollectFiles(srcRoot, [], listing.value, config);
    if ProperListing(listing.value) {
      CollectedPrefixFree(srcRoot, listing.value, config);
    }
    var structure := BuildStructureTree(files, srcRoot);
    if structure.Err? {
      return Err(structure.message);
    }
    return Ok(ScanResult(files, structure.value));
  }
}
