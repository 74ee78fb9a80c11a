/** Where each React source file goes in the Expo project: a classifier
    over the segments of the file's path below the source root. Folder
    keywords are tried first, in a fixed order, then the file name, then a
    few fixed entry files, and otherwise the path is mirrored under `src/`. */
module PathMapper {
  import opened Wrappers
  import opened Seqs
  import opened Strings
  import opened OrderedMaps
  import opened NodePath
  import opened FileScanner

  /** `isInFolder(parts, folderName)`: any segment counts, the file name included. */
  predicate IsInFolder(parts: seq<string>, folderName: string)
  {
    folderName in parts
  }

  /** `parts.filter(p => !remove.includes(p))`. */
  function KeepParts(parts: seq<string>, remove: seq<string>): (kept: seq<string>)
    ensures |kept| <= |parts|
    ensures forall x :: x in kept <==> x in parts && x !in remove
  {
    if parts == [] then []
    else
      var init := KeepParts(parts[..|parts| - 1], remove);
      var last := parts[|parts| - 1];
      assert parts == parts[..|parts| - 1] + [last];
      if last in remove then init else init + [last]
  }

  /** `cleanPath(parts, remove)`: the remaining segments joined with '/'. */
  function CleanPath(parts: seq<string>, remove: seq<string>): string
  {
    Join(KeepParts(parts, remove), "/")
  }

  /** `s.replace(/\.jsx?$/, r)`: a trailing `.jsx` or `.js` becomes `r`. */
  function ReplaceJsx(s: string, r: string): (t: string)
    ensures EndsWith(s, ".js") || EndsWith(s, ".jsx") ==> EndsWith(t, r) && |t| + 3 <= |s| + |r|
    ensures !(EndsWith(s, ".js") || EndsWith(s, ".jsx")) ==> t == s
  {
    if EndsWith(s, ".jsx") then s[..|s| - 4] + r
    else if EndsWith(s, ".js") then s[..|s| - 3] + r
    else s
  }

  /** One folder rule: the keywords that trigger it, the destination root,
      and the extension a trailing `.js`/`.jsx` becomes (none: unchanged). */
  datatype FolderRule = FolderRule(keywords: seq<string>, root: string, newExt: Option<string>)

  /** The folder rules in the order they are tried. */
  const FolderRules: seq<FolderRule> := [
    FolderRule(["pages", "screens", "views"], "app", Some(".tsx")),
    FolderRule(["components"], "components", Some(".tsx")),
    FolderRule(["hooks"], "hooks", Some(".ts")),
    FolderRule(["services", "api"], "services", Some(".ts")),
    FolderRule(["utils", "helpers"], "utils", Some(".ts")),
    FolderRule(["context", "contexts", "providers"], "context", Some(".tsx")),
    FolderRule(["assets", "images", "icons"], "assets", None)
  ]

  /** Every root a destination can start with. */
  const Roots: seq<string> := ["app", "components", "hooks", "services", "utils", "context", "assets", "src"]

  /** Some keyword of the rule is one of the segments. */
  predicate Matches(parts: seq<string>, rule: FolderRule)
  {
    exists w :: w in rule.keywords && IsInFolder(parts, w)
  }

  /** The destination a folder rule gives. */
  function Apply(parts: seq<string>, rule: FolderRule): string
  {
    var moved := rule.root + "/" + CleanPath(parts, rule.keywords);
    if rule.newExt.Some? then ReplaceJsx(moved, rule.newExt.value) else moved
  }

  /** The first rule that matches, if any. */
  function FirstMatch(parts: seq<string>, rules: seq<FolderRule>): (m: Option<FolderRule>)
    ensures m.Some? ==> m.value in rules && Matches(parts, m.value)
  {
    if rules == [] then None
    else if Matches(parts, rules[0]) then Some(rules[0])
    else FirstMatch(parts, rules[1..])
  }

  /** Lines 71-90: the rules tried when no folder keyword occurs; the
      name rules look at the file name alone. */
  function FallbackPath(relativeToSrc: string): (r: string)
    ensures StartsWith(r, "hooks/") || StartsWith(r, "app/") || StartsWith(r, "src/")
  {
    var name := FileName(relativeToSrc);
    var base := BaseOf(name);
    if StartsWith(base, "use") then
      StartsWithConcat("hooks/", ReplaceSuffix(name, ".js", ".ts"));
      "hooks/" + ReplaceSuffix(name, ".js", ".ts")
    else if EndsWith(base, "Screen") || EndsWith(base, "Page") then
      StartsWithConcat("app/", ReplaceJsx(name, ".tsx"));
      "app/" + ReplaceJsx(name, ".tsx")
    else EntryOrMirror(relativeToSrc)
  }

  /** Lines 81-90: the fixed entry files, then the mirror under `src/`. */
  function EntryOrMirror(relativeToSrc: string): (r: string)
    ensures StartsWith(r, "app/") || StartsWith(r, "src/")
  {
    if relativeToSrc == "App.js" || relativeToSrc == "App.jsx" then "app/index.tsx"
    else if relativeToSrc == "main.js" || relativeToSrc == "main.jsx" || relativeToSrc == "index.js" then "app/_layout.tsx"
    else
      var r := ReplaceSuffix(ReplaceSuffix(relativeToSrc, ".js", ".ts"), ".jsx", ".tsx");
      StartsWithConcat("src/", r);
      "src/" + r
  }

  /** `determineNewPath(file)` on `file.relativeToSrc`, the only field it reads. */
  function DetermineNewPath(relativeToSrc: string): string
  {
    var parts := Split(relativeToSrc, '/');
    if IsInFolder(parts, "pages") || IsInFolder(parts, "screens") || IsInFolder(parts, "views") then
      ReplaceJsx("app/" + CleanPath(parts, ["pages", "screens", "views"]), ".tsx")
    else if IsInFolder(parts, "components") then
      ReplaceJsx("components/" + CleanPath(parts, ["components"]), ".tsx")
    else if IsInFolder(parts, "hooks") then
      ReplaceJsx("hooks/" + CleanPath(parts, ["hooks"]), ".ts")
    else if IsInFolder(parts, "services") || IsInFolder(parts, "api") then
      ReplaceJsx("services/" + CleanPath(parts, ["services", "api"]), ".ts")
    else if IsInFolder(parts, "utils") || IsInFolder(parts, "helpers") then
      ReplaceJsx("utils/" + CleanPath(parts, ["utils", "helpers"]), ".ts")
    else if IsInFolder(parts, "context") || IsInFolder(parts, "contexts") || IsInFolder(parts, "providers") then
      ReplaceJsx("context/" + CleanPath(parts, ["context", "contexts", "providers"]), ".tsx")
    else if IsInFolder(parts, "assets") || IsInFolder(parts, "images") || IsInFolder(parts, "icons") then
      "assets/" + CleanPath(parts, ["assets", "images", "icons"])
    else
      FallbackPath(relativeToSrc)
  }

  /** The segments a path is split into and its file name, as lines 28-29 compute them. */
  function Parts(relativeToSrc: string): (parts: seq<string>)
    ensures |parts| >= 1
  {
    Split(relativeToSrc, '/')
  }

  function FileName(relativeToSrc: string): string
  {
    Parts(relativeToSrc)[|Parts(relativeToSrc)| - 1]
  }

  /** `.jsx?` is rewritten after a root exactly as after the root's own text. */
  lemma ReplaceJsxAfterRoot(root: string, x: string, e: string)
    ensures ReplaceJsx(root + "/" + x, e) == root + "/" + ReplaceJsx(x, e)
  {
    var jsx, js := ".jsx", ".js";
    assert '/' !in jsx && '/' !in js;
    var w := root + "/" + x;
    EndsWithAfterSep(root, x, jsx, '/');
    EndsWithAfterSep(root, x, js, '/');
    if EndsWith(x, jsx) {
      ReplaceJsxOfJsx(w, e);
      ReplaceJsxOfJsx(x, e);
      DropAfterRoot(root, x, 4);
    } else if EndsWith(x, js) {
      ReplaceJsxOfJs(w, e);
      ReplaceJsxOfJs(x, e);
      DropAfterRoot(root, x, 3);
    } else {
      ReplaceJsxOfOther(w, e);
      ReplaceJsxOfOther(x, e);
    }
  }

  lemma ReplaceJsxOfJs(name: string, e: string)
    requires !EndsWith(name, ".jsx") && EndsWith(name, ".js")
    ensures ReplaceJsx(name, e) == name[..|name| - 3] + e
  {
  }

  lemma ReplaceJsxOfOther(name: string, e: string)
    requires !EndsWith(name, ".jsx") && !EndsWith(name, ".js")
    ensures ReplaceJsx(name, e) == name
  {
  }

  lemma DropAfterRoot(root: string, x: string, n: nat)
    requires n <= |x|
    ensures var w := root + "/" + x; w[..|w| - n] == root + "/" + x[..|x| - n]
  {
  }

  /** Filtering keeps the order and the multiplicity of the segments it keeps. */
  lemma {:induction false} KeepPartsCount(parts: seq<string>, remove: seq<string>, x: string)
    ensures Count(KeepParts(parts, remove), x) == if x in remove then 0 else Count(parts, x)
  {
    if parts != [] {
      var init := parts[..|parts| - 1];
      KeepPartsCount(init, remove, x);
    }
  }

  lemma {:induction false} KeepPartsAppend(a: seq<string>, b: seq<string>, remove: seq<string>)
    ensures KeepParts(a + b, remove) == KeepParts(a, remove) + KeepParts(b, remove)
    decreases |b|
  {
    if b == [] {
      assert a + b == a;
    } else {
      var b' := b[..|b| - 1];
      assert (a + b)[..|a + b| - 1] == a + b';
      KeepPartsAppend(a, b', remove);
    }
  }

  /** With no keyword among the segments nothing is removed. */
  lemma {:induction false} KeepPartsNone(parts: seq<string>, remove: seq<string>)
    requires forall x :: x in parts ==> x !in remove
    ensures KeepParts(parts, remove) == parts
  {
    if parts != [] {
      var init := parts[..|parts| - 1];
      KeepPartsNone(init, remove);
    }
  }

  /** Splitting the cleaned path on '/' gives exactly the kept segments. */
  lemma CleanPathSegments(parts: seq<string>, remove: seq<string>)
    requires forall i :: 0 <= i < |parts| ==> '/' !in parts[i]
    requires KeepParts(parts, remove) != []
    ensures Split(CleanPath(parts, remove), '/') == KeepParts(parts, remove)
  {
    var kept := KeepParts(parts, remove);
    forall i | 0 <= i < |kept| ensures '/' !in kept[i] {
      assert kept[i] in parts;
    }
    SplitJoin(kept, '/');
  }

  /** A join ends with a separator-free suffix exactly when its last piece does. */
  lemma JoinEndsLikeLast(pieces: seq<string>, e: string)
    requires |pieces| >= 1 && '/' !in e
    ensures EndsWith(Join(pieces, "/"), e) <==> EndsWith(pieces[|pieces| - 1], e)
  {
    if |pieces| > 1 {
      var init := pieces[..|pieces| - 1];
      var last := pieces[|pieces| - 1];
      assert pieces == init + [last];
      JoinSnoc(init, last, "/");
      EndsWithAfterSep(Join(init, "/"), last, e, '/');
    }
  }

  lemma {:induction false} FirstMatchIs(parts: seq<string>, rules: seq<FolderRule>, i: nat)
    requires i < |rules| && Matches(parts, rules[i])
    requires forall j :: 0 <= j < i ==> !Matches(parts, rules[j])
    ensures FirstMatch(parts, rules) == Some(rules[i])
  {
    if i > 0 {
      FirstMatchIs(parts, rules[1..], i - 1);
    }
  }

  /** The rule found is the first one that matches. */
  lemma {:induction false} FirstMatchAt(parts: seq<string>, rules: seq<FolderRule>) returns (i: nat)
    requires FirstMatch(parts, rules).Some?
    ensures i < |rules| && FirstMatch(parts, rules) == Some(rules[i]) && Matches(parts, rules[i])
    ensures forall j :: 0 <= j < i ==> !Matches(parts, rules[j])
  {
    if Matches(parts, rules[0]) {
      i := 0;
    } else {
      var k := FirstMatchAt(parts, rules[1..]);
      i := k + 1;
      assert forall j :: 1 <= j < i ==> rules[j] == rules[1..][j - 1];
    }
  }

  lemma {:induction false} FirstMatchNone(parts: seq<string>, rules: seq<FolderRule>)
    ensures FirstMatch(parts, rules).None? <==> forall j :: 0 <= j < |rules| ==> !Matches(parts, rules[j])
  {
    if rules != [] {
      FirstMatchNone(parts, rules[1..]);
      assert forall j :: 1 <= j < |rules| ==> rules[j] == rules[1..][j - 1];
    }
  }

  /** Rule `i` matches exactly when the condition the source tests for it holds. */
  lemma RuleHits(parts: seq<string>, i: nat)
    requires i < |FolderRules|
    ensures Matches(parts, FolderRules[i]) <==>
      if i == 0 then IsInFolder(parts, "pages") || IsInFolder(parts, "screens") || IsInFolder(parts, "views")
      else if i == 1 then IsInFolder(parts, "components")
      else if i == 2 then IsInFolder(parts, "hooks")
      else if i == 3 then IsInFolder(parts, "services") || IsInFolder(parts, "api")
      else if i == 4 then IsInFolder(parts, "utils") || IsInFolder(parts, "helpers")
      else if i == 5 then IsInFolder(parts, "context") || IsInFolder(parts, "contexts") || IsInFolder(parts, "providers")
      else IsInFolder(parts, "assets") || IsInFolder(parts, "images") || IsInFolder(parts, "icons")
  {
    var kws := FolderRules[i].keywords;
    if i == 0 {
      assert kws == ["pages", "screens", "views"];
    } else if i == 1 {
      assert kws == ["components"];
    } else if i == 2 {
      assert kws == ["hooks"];
    } else if i == 3 {
      assert kws == ["services", "api"];
    } else if i == 4 {
      assert kws == ["utils", "helpers"];
    } else if i == 5 {
      assert kws == ["context", "contexts", "providers"];
    } else {
      assert kws == ["assets", "images", "icons"];
    }
  }

  /** The branch of the source for rule `i`, taken when its keywords
      occur and no earlier rule's do, is what the rule table says. */
  lemma Branch0(relativeToSrc: string)
    requires IsInFolder(Parts(relativeToSrc), "pages") || IsInFolder(Parts(relativeToSrc), "screens") || IsInFolder(Parts(relativeToSrc), "views")
    ensures DetermineNewPath(relativeToSrc) == Apply(Parts(relativeToSrc), FolderRules[0])
  {
    assert FolderRules[0] == FolderRule(["pages", "screens", "views"], "app", Some(".tsx"));
    assert "app" + "/" == "app/";
  }

  lemma Branch1(relativeToSrc: string)
    requires !(IsInFolder(Parts(relativeToSrc), "pages") || IsInFolder(Parts(relativeToSrc), "screens") || IsInFolder(Parts(relativeToSrc), "views"))
    requires IsInFolder(Parts(relativeToSrc), "components")
    ensures DetermineNewPath(relativeToSrc) == Apply(Parts(relativeToSrc), FolderRules[1])
  {
    assert FolderRules[1] == FolderRule(["components"], "components", Some(".tsx"));
    assert "components" + "/" == "components/";
  }

  lemma Branch2(relativeToSrc: string)
    requires !(IsInFolder(Parts(relativeToSrc), "pages") || IsInFolder(Parts(relativeToSrc), "screens") || IsInFolder(Parts(relativeToSrc), "views"))
    requires !(IsInFolder(Parts(relativeToSrc), "components"))
    requires IsInFolder(Parts(relativeToSrc), "hooks")
    ensures DetermineNewPath(relativeToSrc) == Apply(Parts(relativeToSrc), FolderRules[2])
  {
    assert FolderRules[2] == FolderRule(["hooks"], "hooks", Some(".ts"));
    assert "hooks" + "/" == "hooks/";
  }

  lemma Branch3(relativeToSrc: string)
    requires !(IsInFolder(Parts(relativeToSrc), "pages") || IsInFolder(Parts(relativeToSrc), "screens") || IsInFolder(Parts(relativeToSrc), "views"))
    requires !(IsInFolder(Parts(relativeToSrc), "components"))
    requires !(IsInFolder(Parts(relativeToSrc), "hooks"))
    requires IsInFolder(Parts(relativeToSrc), "services") || IsInFolder(Parts(relativeToSrc), "api")
    ensures DetermineNewPath(relativeToSrc) == Apply(Parts(relativeToSrc), FolderRules[3])
  {
    assert FolderRules[3] == FolderRule(["services", "api"], "services", Some(".ts"));
    assert "services" + "/" == "services/";
  }

  lemma Branch4(relativeToSrc: string)
    requires !(IsInFolder(Parts(relativeToSrc), "pages") || IsInFolder(Parts(relativeToSrc), "screens") || IsInFolder(Parts(relativeToSrc), "views"))
    requires !(IsInFolder(Parts(relativeToSrc), "components"))
    requires !(IsInFolder(Parts(relativeToSrc), "hooks"))
    requires !(IsInFolder(Parts(relativeToSrc), "services") || IsInFolder(Parts(relativeToSrc), "api"))
    requires IsInFolder(Parts(relativeToSrc), "utils") || IsInFolder(Parts(relativeToSrc), "helpers")
    ensures DetermineNewPath(relativeToSrc) == Apply(Parts(relativeToSrc), FolderRules[4])
  {
    assert FolderRules[4] == FolderRule(["utils", "helpers"], "utils", Some(".ts"));
    assert "utils" + "/" == "utils/";
  }

  lemma Branch5(relativeToSrc: string)
    requires !(IsInFolder(Parts(relativeToSrc), "pages") || IsInFolder(Parts(relativeToSrc), "screens") || IsInFolder(Parts(relativeToSrc), "views"))
    requires !(IsInFolder(Parts(relativeToSrc), "components"))
    requires !(IsInFolder(Parts(relativeToSrc), "hooks"))
    requires !(IsInFolder(Parts(relativeToSrc), "services") || IsInFolder(Parts(relativeToSrc), "api"))
    requires !(IsInFolder(Parts(relativeToSrc), "utils") || IsInFolder(Parts(relativeToSrc), "helpers"))
    requires IsInFolder(Parts(relativeToSrc), "context") || IsInFolder(Parts(relativeToSrc), "contexts") || IsInFolder(Parts(relativeToSrc), "providers")
    ensures DetermineNewPath(relativeToSrc) == Apply(Parts(relativeToSrc), FolderRules[5])
  {
    assert FolderRules[5] == FolderRule(["context", "contexts", "providers"], "context", Some(".tsx"));
    assert "context" + "/" == "context/";
  }

  lemma Branch6(relativeToSrc: string)
    requires !(IsInFolder(Parts(relativeToSrc), "pages") || IsInFolder(Parts(relativeToSrc), "screens") || IsInFolder(Parts(relativeToSrc), "views"))
    requires !(IsInFolder(Parts(relativeToSrc), "components"))
    requires !(IsInFolder(Parts(relativeToSrc), "hooks"))
    requires !(IsInFolder(Parts(relativeToSrc), "services") || IsInFolder(Parts(relativeToSrc), "api"))
    requires !(IsInFolder(Parts(relativeToSrc), "utils") || IsInFolder(Parts(relativeToSrc), "helpers"))
    requires !(IsInFolder(Parts(relativeToSrc), "context") || IsInFolder(Parts(relativeToSrc), "contexts") || IsInFolder(Parts(relativeToSrc), "providers"))
    requires IsInFolder(Parts(relativeToSrc), "assets") || IsInFolder(Parts(relativeToSrc), "images") || IsInFolder(Parts(relativeToSrc), "icons")
    ensures DetermineNewPath(relativeToSrc) == Apply(Parts(relativeToSrc), FolderRules[6])
  {
    assert FolderRules[6] == FolderRule(["assets", "images", "icons"], "assets", None);
    assert "assets" + "/" == "assets/";
  }

  /** The first matching folder rule decides the destination. */
  lemma FolderRuleDecides(relativeToSrc: string, i: nat)
    requires i < |FolderRules|
    requires Matches(Parts(relativeToSrc), FolderRules[i])
    requires forall j :: 0 <= j < i ==> !Matches(Parts(relativeToSrc), FolderRules[j])
    ensures DetermineNewPath(relativeToSrc) == Apply(Parts(relativeToSrc), FolderRules[i])
  {
    var parts := Parts(relativeToSrc);
    RuleHits(parts, i);
    if i > 0 { RuleHits(parts, 0); }
    if i > 1 { RuleHits(parts, 1); }
    if i > 2 { RuleHits(parts, 2); }
    if i > 3 { RuleHits(parts, 3); }
    if i > 4 { RuleHits(parts, 4); }
    if i > 5 { RuleHits(parts, 5); }
    if i == 0 {
      Branch0(relativeToSrc);
    } else if i == 1 {
      Branch1(relativeToSrc);
    } else if i == 2 {
      Branch2(relativeToSrc);
    } else if i == 3 {
      Branch3(relativeToSrc);
    } else if i == 4 {
      Branch4(relativeToSrc);
    } else if i == 5 {
      Branch5(relativeToSrc);
    } else {
      Branch6(relativeToSrc);
    }
  }

  /** With no folder keyword among the segments the name rules decide. */
  lemma NoFolderRule(relativeToSrc: string)
    requires forall j :: 0 <= j < |FolderRules| ==> !Matches(Parts(relativeToSrc), FolderRules[j])
    ensures DetermineNewPath(relativeToSrc) == FallbackPath(relativeToSrc)
  {
    var parts := Parts(relativeToSrc);
    RuleHits(parts, 0);
    RuleHits(parts, 1);
    RuleHits(parts, 2);
    RuleHits(parts, 3);
    RuleHits(parts, 4);
    RuleHits(parts, 5);
    RuleHits(parts, 6);
  }

  /** The nested conditions of `determineNewPath` are the rule table tried in
      order: the first matching folder rule decides, and only when none
      matches do the file-name and entry-file rules apply. */
  lemma DetermineNewPathByRules(relativeToSrc: string)
    ensures DetermineNewPath(relativeToSrc) ==
      match FirstMatch(Parts(relativeToSrc), FolderRules)
      case Some(rule) => Apply(Parts(relativeToSrc), rule)
      case None => FallbackPath(relativeToSrc)
  {
    var parts := Parts(relativeToSrc);
    if FirstMatch(parts, FolderRules).Some? {
      var i := FirstMatchAt(parts, FolderRules);
      FolderRuleDecides(relativeToSrc, i);
    } else {
      FirstMatchNone(parts, FolderRules);
      NoFolderRule(relativeToSrc);
    }
  }

  /** A folder rule's destination starts with the rule's root. */
  lemma ApplyRoot(parts: seq<string>, rule: FolderRule)
    ensures StartsWith(Apply(parts, rule), rule.root + "/")
  {
    var cleaned := CleanPath(parts, rule.keywords);
    if rule.newExt.Some? {
      ReplaceJsxAfterRoot(rule.root, cleaned, rule.newExt.value);
      StartsWithConcat(rule.root + "/", ReplaceJsx(cleaned, rule.newExt.value));
    } else {
      StartsWithConcat(rule.root + "/", cleaned);
    }
  }

  /** The cleaned path ends like the file name when the file name is kept. */
  lemma CleanPathEnding(parts: seq<string>, remove: seq<string>, e: string)
    requires |parts| >= 1 && parts[|parts| - 1] !in remove && '/' !in e
    ensures EndsWith(CleanPath(parts, remove), e) <==> EndsWith(parts[|parts| - 1], e)
  {
    var kept := KeepParts(parts, remove);
    assert kept == KeepParts(parts[..|parts| - 1], remove) + [parts[|parts| - 1]];
    JoinEndsLikeLast(kept, e);
  }

  /** A file name that is no keyword ends the destination, with a trailing
      `.js`/`.jsx` turned into the rule's extension; `.ts`, `.tsx` and every
      other ending stay, and so does everything under `assets/`. */
  lemma ApplyEnding(parts: seq<string>, rule: FolderRule)
    requires |parts| >= 1 && '/' !in parts[|parts| - 1]
    requires parts[|parts| - 1] !in rule.keywords
    ensures var name := parts[|parts| - 1];
      if rule.newExt.Some? && (EndsWith(name, ".js") || EndsWith(name, ".jsx"))
      then EndsWith(Apply(parts, rule), rule.newExt.value)
      else EndsWith(Apply(parts, rule), name) && Apply(parts, rule) == rule.root + "/" + CleanPath(parts, rule.keywords)
  {
    var cleaned := CleanPath(parts, rule.keywords);
    var name := parts[|parts| - 1];
    CleanPathEnding(parts, rule.keywords, ".js");
    CleanPathEnding(parts, rule.keywords, ".jsx");
    CleanPathEnding(parts, rule.keywords, name);
    EndsWithAfterSep(rule.root, cleaned, name, '/');
    EndsWithAfterSep(rule.root, cleaned, ".js", '/');
    EndsWithAfterSep(rule.root, cleaned, ".jsx", '/');
  }

  /** Every destination starts with one of the eight known roots. */
  lemma DestinationRoot(relativeToSrc: string)
    ensures exists root :: root in Roots && StartsWith(DetermineNewPath(relativeToSrc), root + "/")
  {
    var parts := Parts(relativeToSrc);
    DetermineNewPathByRules(relativeToSrc);
    var m := FirstMatch(parts, FolderRules);
    var root;
    if m.Some? {
      ApplyRoot(parts, m.value);
      RuleRootKnown(m.value);
      root := m.value.root;
    } else {
      root := FallbackRoot(relativeToSrc);
    }
    assert root in Roots && StartsWith(DetermineNewPath(relativeToSrc), root + "/");
  }

  lemma RuleRootKnown(rule: FolderRule)
    requires rule in FolderRules
    ensures rule.root in Roots
  {
  }

  /** The root the fallback rules send a file to. */
  lemma FallbackRoot(relativeToSrc: string) returns (root: string)
    ensures root in Roots && StartsWith(FallbackPath(relativeToSrc), root + "/")
  {
    var r := FallbackPath(relativeToSrc);
    if StartsWith(r, "hooks/") {
      root := "hooks";
      assert root + "/" == "hooks/";
    } else if StartsWith(r, "app/") {
      root := "app";
      assert root + "/" == "app/";
    } else {
      root := "src";
      assert root + "/" == "src/";
    }
    assert Roots[2] == "hooks" && Roots[0] == "app" && Roots[7] == "src";
  }

  lemma PartsOfPagesComponents(name: string)
    requires '/' !in name
    ensures Parts("pages/components/" + name) == ["pages", "components", name]
  {
    assert "pages/components/" + name == "pages" + "/" + ("components" + "/" + name);
    SplitAfterPiece("pages", "components" + "/" + name, '/');
    SplitAfterPiece("components", name, '/');
    SplitNoSep(name, '/');
  }

  lemma CleanPagesComponents(name: string)
    requires name !in FolderRules[0].keywords
    ensures CleanPath(["pages", "components", name], FolderRules[0].keywords) == "components/" + name
  {
    var kws := FolderRules[0].keywords;
    var parts := ["pages", "components", name];
    assert kws == ["pages", "screens", "views"];
    assert parts[..2] == ["pages", "components"];
    assert ["pages", "components"][..1] == ["pages"];
    assert KeepParts(["pages"], kws) == [];
    assert KeepParts(["pages", "components"], kws) == ["components"];
    assert KeepParts(parts, kws) == ["components", name];
    assert ["components", name][1..] == [name];
    assert Join(["components", name], "/") == "components" + "/" + name;
  }

  lemma ApplyPagesComponents(name: string)
    requires name !in FolderRules[0].keywords
    ensures Apply(["pages", "components", name], FolderRules[0]) == "app" + "/" + ReplaceJsx("components" + "/" + name, ".tsx")
  {
    CleanPagesComponents(name);
    assert FolderRules[0].root == "app" && FolderRules[0].newExt == Some(".tsx");
    assert "components/" + name == "components" + "/" + name;
    ReplaceJsxAfterRoot("app", "components" + "/" + name, ".tsx");
  }

  lemma RenameUnderComponents(name: string)
    requires EndsWith(name, ".jsx")
    ensures "app" + "/" + ReplaceJsx("components" + "/" + name, ".tsx") == "app/components/" + name[..|name| - 4] + ".tsx"
  {
    var stem := name[..|name| - 4];
    ReplaceJsxAfterRoot("components", name, ".tsx");
    ReplaceJsxOfJsx(name, ".tsx");
    AppComponentsPrefix(stem + ".tsx");
  }

  lemma ReplaceJsxOfJsx(name: string, e: string)
    requires EndsWith(name, ".jsx")
    ensures ReplaceJsx(name, e) == name[..|name| - 4] + e
  {
  }

  lemma AppComponentsPrefix(x: string)
    ensures "app" + "/" + ("components" + "/" + x) == "app/components/" + x
  {
    var a, c := "app", "components";
    assert a + "/" + c + "/" == "app/components/";
  }

  /** The example of the first-match order: a path under both `pages` and
      `components` goes to `app/`, keeping `components` as a plain folder. */
  lemma PagesBeforeComponents(name: string)
    requires '/' !in name && name !in FolderRules[0].keywords
    requires EndsWith(name, ".jsx")
    ensures DetermineNewPath("pages/components/" + name) == "app/components/" + name[..|name| - 4] + ".tsx"
  {
    var rel := "pages/components/" + name;
    var parts := ["pages", "components", name];
    PartsOfPagesComponents(name);
    RuleHits(parts, 0);
    FolderRuleDecides(rel, 0);
    ApplyPagesComponents(name);
    RenameUnderComponents(name);
  }

  /** A word some folder rule reacts to. */
  predicate IsKeyword(w: string)
  {
    exists i :: 0 <= i < |FolderRules| && w in FolderRules[i].keywords
  }

  lemma NoKeywordNoRule(parts: seq<string>)
    requires forall w :: w in parts ==> !IsKeyword(w)
    ensures forall j :: 0 <= j < |FolderRules| ==> !Matches(parts, FolderRules[j])
  {
  }

  /** The name rules see only the file name. */
  function BaseOf(name: string): string
  {
    BaseNameWithout(name, ExtName(name))
  }

  /** Without folder keywords, a base name starting with `use` sends the file
      to `hooks/` under its bare file name: the directories are dropped, a
      trailing `.js` becomes `.ts`, and a `.jsx` ending stays. */
  lemma HookByName(relativeToSrc: string)
    requires forall j :: 0 <= j < |FolderRules| ==> !Matches(Parts(relativeToSrc), FolderRules[j])
    requires StartsWith(BaseOf(FileName(relativeToSrc)), "use")
    ensures var name := FileName(relativeToSrc);
      DetermineNewPath(relativeToSrc) == "hooks/" + ReplaceSuffix(name, ".js", ".ts")
      && (EndsWith(name, ".jsx") ==> DetermineNewPath(relativeToSrc) == "hooks/" + name)
  {
    NoFolderRule(relativeToSrc);
    var name := FileName(relativeToSrc);
    if EndsWith(name, ".jsx") {
      assert name[|name| - 3..] == name[|name| - 4..][1..];
    }
  }

  /** Without folder keywords and without the `use` prefix, a base name
      ending in `Screen` or `Page` sends the file to `app/` under its bare
      file name, `.js`/`.jsx` turned into `.tsx`. */
  lemma ScreenByName(relativeToSrc: string)
    requires forall j :: 0 <= j < |FolderRules| ==> !Matches(Parts(relativeToSrc), FolderRules[j])
    requires !StartsWith(BaseOf(FileName(relativeToSrc)), "use")
    requires EndsWith(BaseOf(FileName(relativeToSrc)), "Screen") || EndsWith(BaseOf(FileName(relativeToSrc)), "Page")
    ensures var name := FileName(relativeToSrc);
      DetermineNewPath(relativeToSrc) == "app/" + ReplaceJsx(name, ".tsx")
      && (EndsWith(name, ".js") || EndsWith(name, ".jsx") ==> EndsWith(DetermineNewPath(relativeToSrc), ".tsx"))
  {
    NoFolderRule(relativeToSrc);
    ScreenFallback(relativeToSrc);
    var name := FileName(relativeToSrc);
    if EndsWith(name, ".js") || EndsWith(name, ".jsx") {
      ReplaceJsxEnding("app/", name, ".tsx");
    }
  }

  lemma ScreenFallback(relativeToSrc: string)
    requires !StartsWith(BaseOf(FileName(relativeToSrc)), "use")
    requires EndsWith(BaseOf(FileName(relativeToSrc)), "Screen") || EndsWith(BaseOf(FileName(relativeToSrc)), "Page")
    ensures FallbackPath(relativeToSrc) == "app/" + ReplaceJsx(FileName(relativeToSrc), ".tsx")
  {
  }

  /** A rewritten `.js`/`.jsx` ending survives a prefix. */
  lemma ReplaceJsxEnding(prefix: string, name: string, e: string)
    requires EndsWith(name, ".js") || EndsWith(name, ".jsx")
    ensures EndsWith(prefix + ReplaceJsx(name, e), e)
  {
    var r := ReplaceJsx(name, e);
    assert (prefix + r)[|prefix + r| - |e|..] == r[|r| - |e|..];
  }

  /** The two name rules depend on the file name alone, so files with the
      same name in different non-keyword directories get one destination:
      the map is not one-to-one. */
  lemma NameRulesIgnoreDirectory(dir: string, name: string)
    requires '/' !in dir && '/' !in name && !IsKeyword(dir) && !IsKeyword(name)
    requires var base := BaseOf(name);
      StartsWith(base, "use") || EndsWith(base, "Screen") || EndsWith(base, "Page")
    ensures DetermineNewPath(dir + "/" + name) == DetermineNewPath(name)
  {
    SplitAfterPiece(dir, name, '/');
    SplitNoSep(name, '/');
    assert Parts(dir + "/" + name) == [dir, name];
    assert Parts(name) == [name];
    NoKeywordNoRule([dir, name]);
    NoKeywordNoRule([name]);
    NoFolderRule(dir + "/" + name);
    NoFolderRule(name);
  }

  /** What the default rule does to the path: a trailing `.js` becomes `.ts`,
      a trailing `.jsx` becomes `.tsx` (the second replacement never undoes
      the first), anything else is mirrored unchanged under `src/`. */
  lemma MirrorUnderSrc(relativeToSrc: string)
    requires forall j :: 0 <= j < |FolderRules| ==> !Matches(Parts(relativeToSrc), FolderRules[j])
    requires var base := BaseOf(FileName(relativeToSrc));
      !StartsWith(base, "use") && !EndsWith(base, "Screen") && !EndsWith(base, "Page")
    requires relativeToSrc !in ["App.js", "App.jsx", "main.js", "main.jsx", "index.js"]
    ensures var rel := relativeToSrc;
      DetermineNewPath(rel) ==
        if EndsWith(rel, ".js") then "src/" + rel[..|rel| - 3] + ".ts"
        else if EndsWith(rel, ".jsx") then "src/" + rel[..|rel| - 4] + ".tsx"
        else "src/" + rel
  {
    NoFolderRule(relativeToSrc);
    MirrorFallback(relativeToSrc);
    ReplaceBoth(relativeToSrc);
  }

  lemma MirrorFallback(relativeToSrc: string)
    requires var base := BaseOf(FileName(relativeToSrc));
      !StartsWith(base, "use") && !EndsWith(base, "Screen") && !EndsWith(base, "Page")
    requires relativeToSrc !in ["App.js", "App.jsx", "main.js", "main.jsx", "index.js"]
    ensures FallbackPath(relativeToSrc) == "src/" + ReplaceSuffix(ReplaceSuffix(relativeToSrc, ".js", ".ts"), ".jsx", ".tsx")
  {
    assert FallbackPath(relativeToSrc) == EntryOrMirror(relativeToSrc);
  }

  /** The second replacement of line 90 never undoes the first. */
  lemma ReplaceBoth(rel: string)
    ensures ReplaceSuffix(ReplaceSuffix(rel, ".js", ".ts"), ".jsx", ".tsx") ==
      if EndsWith(rel, ".js") then rel[..|rel| - 3] + ".ts"
      else if EndsWith(rel, ".jsx") then rel[..|rel| - 4] + ".tsx"
      else rel
  {
    if EndsWith(rel, ".js") {
      var t := rel[..|rel| - 3] + ".ts";
      assert t[|t| - 1] == 's';
      assert !EndsWith(t, ".jsx");
    }
  }

  /** The fixed entry files: `App.js`/`App.jsx` at the source root become
      the index page, `main.js`/`main.jsx`/`index.js` the layout. */
  lemma EntryFiles(relativeToSrc: string)
    requires relativeToSrc in ["App.js", "App.jsx", "main.js", "main.jsx", "index.js"]
    ensures DetermineNewPath(relativeToSrc) ==
      if relativeToSrc in ["App.js", "App.jsx"] then "app/index.tsx" else "app/_layout.tsx"
  {
    var rel := relativeToSrc;
    EntryNoFolder(rel);
    NoFolderRule(rel);
    EntryBase(rel);
    EntryTarget(rel);
  }

  lemma EntryNoFolder(rel: string)
    requires rel in ["App.js", "App.jsx", "main.js", "main.jsx", "index.js"]
    ensures Parts(rel) == [rel]
    ensures forall j :: 0 <= j < |FolderRules| ==> !Matches(Parts(rel), FolderRules[j])
  {
    SplitNoSep(rel, '/');
    assert '.' in rel;
    KeywordsHaveNoDot(rel);
    NoKeywordNoRule([rel]);
  }

  /** No folder keyword holds a dot, so no file name with an extension is one. */
  lemma KeywordsHaveNoDot(w: string)
    ensures IsKeyword(w) ==> '.' !in w
  {
    if IsKeyword(w) {
      var i :| 0 <= i < |FolderRules| && w in FolderRules[i].keywords;
      RuleKeywordsHaveNoDot(i);
    }
  }

  lemma RuleKeywordsHaveNoDot(i: nat)
    requires i < |FolderRules|
    ensures forall w :: w in FolderRules[i].keywords ==> '.' !in w
  {
    var kws := FolderRules[i].keywords;
    if i == 0 {
      assert kws == ["pages", "screens", "views"];
    } else if i == 1 {
      assert kws == ["components"];
    } else if i == 2 {
      assert kws == ["hooks"];
    } else if i == 3 {
      assert kws == ["services", "api"];
    } else if i == 4 {
      assert kws == ["utils", "helpers"];
    } else if i == 5 {
      assert kws == ["context", "contexts", "providers"];
    } else {
      assert kws == ["assets", "images", "icons"];
    }
  }

  lemma EntryTarget(rel: string)
    requires rel in ["App.js", "App.jsx", "main.js", "main.jsx", "index.js"]
    ensures EntryOrMirror(rel) == if rel in ["App.js", "App.jsx"] then "app/index.tsx" else "app/_layout.tsx"
  {
  }

  lemma EntryBase(rel: string)
    requires rel in ["App.js", "App.jsx", "main.js", "main.jsx", "index.js"]
    requires Parts(rel) == [rel]
    ensures FallbackPath(rel) == EntryOrMirror(rel)
  {
    assert FileName(rel) == rel;
    EntryBaseName(rel);
    NoNameRule(BaseOf(rel));
  }

  lemma NoNameRule(base: string)
    requires base in ["App", "main", "index"]
    ensures !StartsWith(base, "use") && !EndsWith(base, "Screen") && !EndsWith(base, "Page")
  {
    if base == "main" {
      assert base[0] == 'm' && base[0] == base[|base| - 4];
      NoUsePrefix(base);
      NoPageSuffix(base);
    } else if base == "index" {
      assert base[0] == 'i' && base[1] == 'n' && base[1] == base[|base| - 4];
      NoUsePrefix(base);
      NoPageSuffix(base);
    } else {
      assert base[0] == 'A';
      NoUsePrefix(base);
    }
  }

  lemma NoUsePrefix(base: string)
    requires |base| >= 1 && base[0] != 'u'
    ensures !StartsWith(base, "use")
  {
    assert "use"[0] == 'u';
  }

  lemma NoPageSuffix(base: string)
    requires |base| >= 4 && base[|base| - 4] != 'P'
    ensures !EndsWith(base, "Page")
  {
    assert "Page"[0] == 'P';
  }

  /** The base name of a file name with its last dot at `d`. */
  lemma BaseOfDotted(name: string, d: nat)
    requires 0 < d < |name| && name[d] == '.' && '.' !in name[d + 1..] && name != ".."
    ensures BaseOf(name) == name[..d]
  {
    forall j | d < j < |name| ensures name[j] != '.' {
      assert name[j] == name[d + 1..][j - d - 1];
    }
    assert LastIndexOf(name, '.') == d;
    assert ExtName(name) == name[d..];
    assert EndsWith(name, name[d..]);
    assert name[..|name| - |name[d..]|] == name[..d];
  }

  /** The base name of a stem followed by a one-dot extension. */
  lemma BaseOfStem(stem: string, ext: string)
    requires |stem| > 0 && stem[0] != '.' && |ext| > 0 && ext[0] == '.' && '.' !in ext[1..]
    ensures BaseOf(stem + ext) == stem
  {
    var name := stem + ext;
    assert name[|stem| + 1..] == ext[1..];
    assert name[0] == stem[0];
    BaseOfDotted(name, |stem|);
    assert name[..|stem|] == stem;
  }

  lemma EntryBaseName(rel: string)
    requires rel in ["App.js", "App.jsx", "main.js", "main.jsx", "index.js"]
    ensures BaseOf(rel) in ["App", "main", "index"]
  {
    var js, jsx := ".js", ".jsx";
    assert '.' !in js[1..] && '.' !in jsx[1..];
    if rel == "App.js" {
      assert rel == "App" + js;
      BaseOfStem("App", js);
    } else if rel == "App.jsx" {
      assert rel == "App" + jsx;
      BaseOfStem("App", jsx);
    } else if rel == "main.js" {
      assert rel == "main" + js;
      BaseOfStem("main", js);
    } else if rel == "main.jsx" {
      assert rel == "main" + jsx;
      BaseOfStem("main", jsx);
    } else {
      assert rel == "index" + js;
      BaseOfStem("index", js);
    }
  }

  /** The `relativeToSrc` of each file, in order. */
  function Rels(files: seq<FileRecord>): (rs: seq<string>)
    ensures |rs| == |files|
    ensures forall i :: 0 <= i < |files| ==> rs[i] == files[i].relativeToSrc
  {
    seq(|files|, i requires 0 <= i < |files| => files[i].relativeToSrc)
  }

  /** `generateMap(files)`: one entry per distinct `relativeToSrc`, in order of
      first occurrence, each mapped to its destination. A repeated path is
      assigned again, to the same value, and keeps its first position. */
  method GenerateMap(files: seq<FileRecord>) returns (pathMap: OMap<string>)
    ensures pathMap.Valid()
    ensures pathMap.keys == Dedup(Rels(files))
    ensures forall k :: k in pathMap.entries <==> k in Rels(files)
    ensures forall k :: k in pathMap.entries ==> pathMap.entries[k] == DetermineNewPath(k)
  {
    ghost var rels := Rels(files);
    pathMap := Empty();
    var i := 0;
    while i < |files|
      invariant 0 <= i <= |files|
      invariant pathMap.Valid()
      invariant pathMap.keys == Dedup(rels[..i])
      invariant forall k :: k in pathMap.entries <==> k in rels[..i]
      invariant forall k :: k in pathMap.entries ==> pathMap.entries[k] == DetermineNewPath(k)
    {
      var oldPath := files[i].relativeToSrc;
      var refinedPath := DetermineNewPath(oldPath);
      TakeSnoc(rels, i);
      assert rels[..i + 1][..i] == rels[..i];
      DedupSpec(rels[..i]);
      pathMap := pathMap.Put(oldPath, refinedPath);
      i := i + 1;
    }
    assert rels[..i] == rels;
  }
}
