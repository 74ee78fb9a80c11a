/** The parts of Node's POSIX `path` module the source relies on:
    `extname`, `basename`, `dirname`, `normalize` and `join`. Paths are
    POSIX paths: the separator is always '/'. */
module NodePath {
  import opened Strings

  const Sep: char := '/'

  /** `p.split(path.sep).join("/")`, the repository's `normalizePath`:
      the identity once the separator is '/'. */
  function ToPosix(p: string): (r: string)
    ensures r == p
  {
    JoinSplit(p, Sep);
    Join(Split(p, Sep), "/")
  }

  /** `path.extname(name)` for a single path component: from the last '.'
      to the end, unless that '.' is the first character or there is none
      (and ".." has none). */
  function ExtName(name: string): (ext: string)
    ensures ext == "" || (StartsWith(ext, ".") && EndsWith(name, ext) && |ext| < |name| && '.' !in ext[1..])
  {
    var d := LastIndexOf(name, '.');
    if d <= 0 || name == ".." then "" else name[d..]
  }

  /** `path.basename(name, suffix)` for a single path component: the suffix
      is cut off when the name ends with it and is longer than it. */
  function BaseNameWithout(name: string, suffix: string): (r: string)
    ensures r == name || (EndsWith(name, suffix) && name == r + suffix)
  {
    if suffix == [] || |suffix| > |name| then name
    else if suffix == name then ""
    else if EndsWith(name, suffix) then name[..|name| - |suffix|]
    else name
  }

  /** `path.basename(p)`: the last component, trailing separators ignored. */
  function BaseName(p: string): (r: string)
    ensures Sep !in r
  {
    if p == [] then ""
    else if p[|p| - 1] == Sep then BaseName(p[..|p| - 1])
    else LastComponent(p)
  }

  function LastComponent(p: string): (r: string)
    ensures Sep !in r
    ensures EndsWith(p, r)
  {
    if p == [] || p[|p| - 1] == Sep then ""
    else LastComponent(p[..|p| - 1]) + [p[|p| - 1]]
  }

  /** Position of the separator that ends the directory part: the last
      '/' at index 1 or later that some non-separator follows; -1 if none. */
  function DirEnd(p: string, i: int, seenName: bool): (e: int)
    requires -1 <= i < |p|
    ensures -1 <= e <= i
    ensures e >= 1 ==> p[e] == Sep
    decreases i
  {
    if i < 1 then -1
    else if p[i] == Sep then (if seenName then i else DirEnd(p, i - 1, seenName))
    else DirEnd(p, i - 1, true)
  }

  /** `path.dirname(p)`. */
  function DirName(p: string): string
  {
    if p == [] then "."
    else
      var e := DirEnd(p, |p| - 1, false);
      if e == -1 then (if p[0] == Sep then "/" else ".")
      else if p[0] == Sep && e == 1 then "//"
      else p[..e]
  }

  /** One step of `path.normalize` over the segments kept so far: empty
      and "." segments vanish, ".." removes the last real segment (or is
      kept at the front of a relative path), any other segment is kept. */
  function Step(kept: seq<string>, segment: string, allowAboveRoot: bool): seq<string>
  {
    if segment == "" || segment == "." then kept
    else if segment == ".." then
      if |kept| > 0 && kept[|kept| - 1] != ".." then kept[..|kept| - 1]
      else if allowAboveRoot then kept + [".."]
      else kept
    else kept + [segment]
  }

  function NormalizeSegments(segments: seq<string>, allowAboveRoot: bool): seq<string>
  {
    if segments == [] then []
    else Step(NormalizeSegments(segments[..|segments| - 1], allowAboveRoot), segments[|segments| - 1], allowAboveRoot)
  }

  /** Normal form of a segment list: no empty or "." segment, every ".."
      before every real segment, and no ".." at all above a root. */
  ghost predicate IsNormal(segments: seq<string>, allowAboveRoot: bool)
  {
    && (forall i :: 0 <= i < |segments| ==> segments[i] != "" && segments[i] != ".")
    && (forall i, j :: 0 <= i < j < |segments| && segments[i] != ".." ==> segments[j] != "..")
    && (!allowAboveRoot ==> ".." !in segments)
  }

  /** `path.normalize(p)`. */
  function Normalize(p: string): string
  {
    if p == [] then "."
    else
      var isAbsolute := p[0] == Sep;
      var trailingSeparator := p[|p| - 1] == Sep;
      var body := Join(NormalizeSegments(Split(p, Sep), !isAbsolute), "/");
      if body == [] then (if isAbsolute then "/" else if trailingSeparator then "./" else ".")
      else (if isAbsolute then "/" else "") + body + (if trailingSeparator then "/" else "")
  }

  /** `path.join(a, b)`: empty arguments are skipped, the rest joined by '/'
      and normalized. */
  function PathJoin(a: string, b: string): string
  {
    var joined := if a == [] then b else if b == [] then a else a + "/" + b;
    if joined == [] then "." else Normalize(joined)
  }

  // ---- Properties of normalization ----

  lemma {:induction false} StepKeepsNormal(kept: seq<string>, segment: string, allowAboveRoot: bool)
    requires IsNormal(kept, allowAboveRoot)
    ensures IsNormal(Step(kept, segment, allowAboveRoot), allowAboveRoot)
  {
    var r := Step(kept, segment, allowAboveRoot);
    if segment == ".." && !(|kept| > 0 && kept[|kept| - 1] != "..") && allowAboveRoot {
      assert forall i :: 0 <= i < |kept| ==> kept[i] == "..";
    }
  }

  /** Normalization always yields the normal form. */
  lemma {:induction false} NormalizeSegmentsIsNormal(segments: seq<string>, allowAboveRoot: bool)
    ensures IsNormal(NormalizeSegments(segments, allowAboveRoot), allowAboveRoot)
  {
    if segments != [] {
      NormalizeSegmentsIsNormal(segments[..|segments| - 1], allowAboveRoot);
      StepKeepsNormal(NormalizeSegments(segments[..|segments| - 1], allowAboveRoot), segments[|segments| - 1], allowAboveRoot);
    }
  }

  /** A segment list already in normal form is left as it is. */
  lemma {:induction false} NormalizeSegmentsOfNormal(segments: seq<string>, allowAboveRoot: bool)
    requires IsNormal(segments, allowAboveRoot)
    ensures NormalizeSegments(segments, allowAboveRoot) == segments
  {
    if segments != [] {
      var init, last := segments[..|segments| - 1], segments[|segments| - 1];
      assert segments == init + [last];
      NormalizeSegmentsOfNormal(init, allowAboveRoot);
      if last == ".." {
        assert forall i :: 0 <= i < |init| ==> init[i] == "..";
      }
    }
  }

  /** Normalizing segments twice is normalizing them once. */
  lemma NormalizeSegmentsIdempotent(segments: seq<string>, allowAboveRoot: bool)
    ensures NormalizeSegments(NormalizeSegments(segments, allowAboveRoot), allowAboveRoot)
         == NormalizeSegments(segments, allowAboveRoot)
  {
    NormalizeSegmentsIsNormal(segments, allowAboveRoot);
    NormalizeSegmentsOfNormal(NormalizeSegments(segments, allowAboveRoot), allowAboveRoot);
  }

  /** Segments without a separator stay without one. */
  lemma {:induction false} NormalizeSegmentsNoSep(segments: seq<string>, allowAboveRoot: bool)
    requires forall i :: 0 <= i < |segments| ==> Sep !in segments[i]
    ensures forall i :: 0 <= i < |NormalizeSegments(segments, allowAboveRoot)| ==> Sep !in NormalizeSegments(segments, allowAboveRoot)[i]
  {
    if segments != [] {
      NormalizeSegmentsNoSep(segments[..|segments| - 1], allowAboveRoot);
    }
  }

  lemma {:induction false} NormalizeSegmentsSkipsLeadingEmpty(rest: seq<string>, allowAboveRoot: bool)
    ensures NormalizeSegments([""] + rest, allowAboveRoot) == NormalizeSegments(rest, allowAboveRoot)
  {
    if rest != [] {
      assert ([""] + rest)[..|rest|] == [""] + rest[..|rest| - 1];
      NormalizeSegmentsSkipsLeadingEmpty(rest[..|rest| - 1], allowAboveRoot);
    }
  }

  lemma SplitBodyTrailing(segments: seq<string>)
    requires |segments| >= 1
    requires forall i :: 0 <= i < |segments| ==> Sep !in segments[i]
    ensures Split(Join(segments, "/") + "/", Sep) == segments + [""]
  {
    var t := segments + [""];
    assert forall i :: 0 <= i < |t| ==> Sep !in t[i] by {
      forall i | 0 <= i < |t| ensures Sep !in t[i] {
        if i < |segments| { assert t[i] == segments[i]; }
      }
    }
    JoinSnoc(segments, "", "/");
    assert Join(t, "/") == Join(segments, "/") + "/";
    SplitJoin(t, Sep);
  }

  lemma SplitLeadingSep(rest: string)
    ensures Split("/" + rest, Sep) == [""] + Split(rest, Sep)
  {
    assert ("/" + rest)[1..] == rest;
  }

  /** Normalizing the pieces of a normalized path gives its segments back:
      the empty pieces a root or trailing separator adds are dropped. */
  lemma {:induction false} RenormalizeSegments(segments: seq<string>, isAbsolute: bool, trailingSeparator: bool)
    requires |segments| >= 1
    requires forall i :: 0 <= i < |segments| ==> Sep !in segments[i]
    requires IsNormal(segments, !isAbsolute)
    ensures NormalizeSegments(Split((if isAbsolute then "/" else "") + Join(segments, "/") + (if trailingSeparator then "/" else ""), Sep), !isAbsolute)
         == segments
  {
    var body := Join(segments, "/");
    var tail := body + (if trailingSeparator then "/" else "");
    RenormalizeTail(segments, trailingSeparator, !isAbsolute);
    if isAbsolute {
      SplitLeadingSep(tail);
      NormalizeSegmentsSkipsLeadingEmpty(Split(tail, Sep), false);
      assert "/" + body + (if trailingSeparator then "/" else "") == "/" + tail;
    } else {
      assert "" + body + (if trailingSeparator then "/" else "") == tail;
    }
  }

  /** The relative part: normal segments, joined and perhaps followed by a
      separator, split and normalized back. */
  lemma RenormalizeTail(segments: seq<string>, trailingSeparator: bool, allowAboveRoot: bool)
    requires |segments| >= 1
    requires forall i :: 0 <= i < |segments| ==> Sep !in segments[i]
    requires IsNormal(segments, allowAboveRoot)
    ensures NormalizeSegments(Split(Join(segments, "/") + (if trailingSeparator then "/" else ""), Sep), allowAboveRoot)
         == segments
  {
    NormalizeSegmentsOfNormal(segments, allowAboveRoot);
    if trailingSeparator {
      SplitBodyTrailing(segments);
      var pieces := segments + [""];
      assert pieces[..|pieces| - 1] == segments;
      assert NormalizeSegments(pieces, allowAboveRoot) == Step(segments, "", allowAboveRoot);
    } else {
      SplitJoin(segments, Sep);
      assert Join(segments, "/") + "" == Join(segments, "/");
    }
  }

  /** `path.normalize` is idempotent. */
  lemma NormalizeIdempotent(p: string)
    ensures Normalize(Normalize(p)) == Normalize(p)
  {
    DotFormsStable();
    if p != [] {
      var isAbsolute := p[0] == Sep;
      var segments := NormalizeSegments(Split(p, Sep), !isAbsolute);
      if Join(segments, "/") != [] {
        NormalizeSegmentsIsNormal(Split(p, Sep), !isAbsolute);
        NormalizeSegmentsNoSep(Split(p, Sep), !isAbsolute);
        var trailingSeparator := p[|p| - 1] == Sep;
        NormalFormStable(segments, isAbsolute, trailingSeparator);
        assert Normalize(p) == (if isAbsolute then "/" else "") + Join(segments, "/") + (if trailingSeparator then "/" else "");
      } else {
        assert Normalize(p) in {"/", "./", "."};
      }
    }
  }

  /** A non-empty normal body, with its root and trailing separator, is
      left as it is by `path.normalize`. */
  lemma NormalFormStable(segments: seq<string>, isAbsolute: bool, trailingSeparator: bool)
    requires forall i :: 0 <= i < |segments| ==> Sep !in segments[i]
    requires IsNormal(segments, !isAbsolute)
    requires Join(segments, "/") != []
    ensures var q := (if isAbsolute then "/" else "") + Join(segments, "/") + (if trailingSeparator then "/" else "");
      Normalize(q) == q
  {
    var body := Join(segments, "/");
    var q := (if isAbsolute then "/" else "") + body + (if trailingSeparator then "/" else "");
    assert |segments| >= 1;
    JoinEnds(segments, "/");
    var first, last := segments[0], segments[|segments| - 1];
    assert first != [] && last != [];
    assert body[0] == first[0] && body[|body| - 1] == last[|last| - 1];
    assert q[0] == Sep <==> isAbsolute;
    assert q[|q| - 1] == Sep <==> trailingSeparator;
    RenormalizeSegments(segments, isAbsolute, trailingSeparator);
  }

  /** The three results for an empty body normalize to themselves. */
  lemma DotFormsStable()
    ensures Normalize("/") == "/" && Normalize("./") == "./" && Normalize(".") == "."
  {
    SplitLeadingSep("");
    assert "/" + "" == "/";
    SplitNoSep(".", Sep);
    SplitAfterPiece(".", "", Sep);
    assert "." + [Sep] + "" == "./";
    assert NormalizeSegments(Split("/", Sep), false) == [];
    assert Split("./", Sep) == [".", ""];
    assert NormalizeSegments([".", ""], true) == Step(NormalizeSegments(["."], true), "", true);
    assert ["."] == [".", ""][..1];
    assert NormalizeSegments(Split("./", Sep), true) == [];
    assert NormalizeSegments(Split(".", Sep), true) == [];
  }

  // ---- Paths of plain names ----

  /** A single path component other than "." and "..". */
  predicate IsPlainName(d: string)
  {
    d != [] && Sep !in d && d != "." && d != ".."
  }

  lemma {:induction false} DirEndAcross(p: string, i: int, seenName: bool, k: int)
    requires 1 <= k <= i < |p|
    requires p[k] == Sep
    requires forall j :: k < j <= i ==> p[j] != Sep
    requires seenName || k < i
    ensures DirEnd(p, i, seenName) == k
    decreases i
  {
    if i > k {
      DirEndAcross(p, i - 1, true, k);
    }
  }

  /** The directory of "d/f" is "d". */
  lemma DirNameOfChild(d: string, f: string)
    requires d != [] && Sep !in d && f != [] && Sep !in f
    ensures DirName(d + "/" + f) == d
  {
    var p := d + "/" + f;
    forall j | |d| < j <= |p| - 1 ensures p[j] != Sep {
      assert p[j] == f[j - |d| - 1];
    }
    DirEndAcross(p, |p| - 1, false, |d|);
    assert p[..|d|] == d;
  }

  /** Joining "d" and "./x" gives "d/x". */
  lemma JoinChild(d: string, x: string)
    requires IsPlainName(d) && IsPlainName(x)
    ensures Normalize(d + [Sep] + ("." + [Sep] + x)) == d + "/" + x
  {
    SplitNoSep(x, Sep);
    SplitAfterPiece(".", x, Sep);
    SplitAfterPiece(d, "." + [Sep] + x, Sep);
    var segments := [d, ".", x];
    assert Split(d + [Sep] + ("." + [Sep] + x), Sep) == segments;
    assert segments[..2][..1] == [d];
    assert segments[..2] == [d, "."];
    assert NormalizeSegments([d], true) == [d];
    assert NormalizeSegments(segments, true) == [d, x];
    assert Join([d, x], "/") == d + "/" + x;
  }
}
