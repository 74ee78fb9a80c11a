/** `cleanAIResponse`: strips a model's answer down to code, by a fixed
    chain of trims and regular-expression replacements. Each replacement is
    written out as the scan the regular-expression engine performs. */
module CleanAIResponse {
  import opened Strings

  /** JavaScript's white space and line terminators: what `trim` removes and `\s` matches. */
  predicate IsSpace(c: char)
  {
    || c == ' ' || c == '\t' || c == '\n' || c == '\U{000B}' || c == '\U{000C}' || c == '\r'
    || c == '\U{00A0}' || c == '\U{1680}' || ('\U{2000}' <= c <= '\U{200A}')
    || c == '\U{2028}' || c == '\U{2029}' || c == '\U{202F}' || c == '\U{205F}'
    || c == '\U{3000}' || c == '\U{FEFF}'
  }

  /** The characters `.` does not match and before which `$` matches in multiline mode. */
  predicate IsLineTerminator(c: char)
  {
    c == '\n' || c == '\r' || c == '\U{2028}' || c == '\U{2029}'
  }

  /** Neither end is white space. */
  predicate Trimmed(s: string)
  {
    s == [] || (!IsSpace(s[0]) && !IsSpace(s[|s| - 1]))
  }

  function TrimStart(s: string): (r: string)
    ensures |r| <= |s| && r == s[|s| - |r|..]
    ensures r == [] || !IsSpace(r[0])
    ensures forall i :: 0 <= i < |s| - |r| ==> IsSpace(s[i])
  {
    if s != [] && IsSpace(s[0]) then TrimStart(s[1..]) else s
  }

  function TrimEnd(s: string): (r: string)
    ensures |r| <= |s| && r == s[..|r|]
    ensures r == [] || !IsSpace(r[|r| - 1])
    ensures forall i :: |r| <= i < |s| ==> IsSpace(s[i])
  {
    if s != [] && IsSpace(s[|s| - 1]) then TrimEnd(s[..|s| - 1]) else s
  }

  /** `s.trim()`: white space at either end goes, nothing else changes. */
  function Trim(s: string): (r: string)
    ensures Trimmed(r)
    ensures Trimmed(s) ==> r == s
    ensures |r| <= |s|
  {
    TrimEnd(TrimStart(s))
  }

  /** Trimming creates no occurrence. */
  lemma TrimKeepsNone(s: string, sub: string)
    requires !Contains(s, sub)
    ensures !Contains(Trim(s), sub)
  {
    var t := TrimStart(s);
    var r := TrimEnd(t);
    SliceKeepsNone(s, |s| - |t|, |s|, sub);
    assert s[|s| - |t|..|s|] == t;
    SliceKeepsNone(t, 0, |r|, sub);
    assert t[0..|r|] == r;
  }

  /** The first occurrence of `sub` at or after `from`, or -1. */
  function FindFrom(s: string, sub: string, from: nat): (i: int)
    ensures i == -1 || (from <= i && OccursAt(s, sub, i))
    ensures forall k :: from <= k && (i == -1 || k < i) ==> !OccursAt(s, sub, k)
    decreases |s| - from
  {
    if from + |sub| > |s| then -1
    else if s[from..from + |sub|] == sub then from
    else FindFrom(s, sub, from + 1)
  }

  const Fence := "```"

  /** `s.replace(/```[\s\S]*?```/g, "")`: from the leftmost fence to the
      next fence after it, both fences and everything between go; the scan
      resumes after the closing fence. An unpaired fence is left. */
  function RemoveFencedBlocks(s: string): string
    decreases |s|
  {
    var i := FindFrom(s, Fence, 0);
    if i < 0 then s
    else
      var j := FindFrom(s, Fence, i + 3);
      if j < 0 then s else s[..i] + RemoveFencedBlocks(s[j + 3..])
  }

  /** `s.replace(/<sub>/g, "")`: leftmost occurrences, without overlap. */
  function RemoveAll(s: string, sub: string): string
    requires |sub| > 0
    decreases |s|
  {
    var i := FindFrom(s, sub, 0);
    if i < 0 then s else s[..i] + RemoveAll(s[i + |sub|..], sub)
  }

  /** The first index at or after `from` holding ':' or a line terminator, or `|s|`. */
  function ColonOrLineEnd(s: string, from: nat): (p: nat)
    requires from <= |s|
    ensures from <= p <= |s|
    ensures p < |s| ==> s[p] == ':' || IsLineTerminator(s[p])
    ensures forall k :: from <= k < p ==> s[k] != ':' && !IsLineTerminator(s[k])
    decreases |s| - from
  {
    if from == |s| || s[from] == ':' || IsLineTerminator(s[from]) then from
    else ColonOrLineEnd(s, from + 1)
  }

  /** `s.replace(/^<word>.*?:/gi, "")`: at the very start only, `word` in any
      ASCII letter case, then up to and including the first ':' on the
      first line. */
  function StripLead(s: string, word: string): (r: string)
    ensures |r| <= |s| && r == s[|s| - |r|..]
  {
    if |s| >= |word| && EqualIgnoringCase(s[..|word|], word) then
      var p := ColonOrLineEnd(s, |word|);
      if p < |s| && s[p] == ':' then s[p + 1..] else s
    else s
  }

  /** The first index at or after `from` holding a line terminator, or `|s|`. */
  function LineEnd(s: string, from: nat): (p: nat)
    requires from <= |s|
    ensures from <= p <= |s|
    ensures p < |s| ==> IsLineTerminator(s[p])
    decreases |s| - from
  {
    if from == |s| || IsLineTerminator(s[from]) then from else LineEnd(s, from + 1)
  }

  /** `s.replace(/\/\/.*$/gm, "")`: each `//` and the rest of its line; the
      line terminator itself stays. */
  function RemoveLineComments(s: string): (r: string)
    ensures |r| <= |s|
    decreases |s|
  {
    var i := FindFrom(s, "//", 0);
    if i < 0 then s
    else
      var k := LineEnd(s, i + 2);
      s[..i] + RemoveLineComments(s[k..])
  }

  /** Fenced blocks removed, then every remaining fence: no fence is left. */
  function Unfence(s: string): (r: string)
    ensures !Contains(r, Fence)
  {
    var unfenced := RemoveFencedBlocks(s);
    RemoveAllLeavesNone(unfenced, Fence, '`');
    RemoveAll(unfenced, Fence)
  }

  /** Comment removal leaves no `//` and creates no fence. */
  function StripComments(s: string): (r: string)
    ensures !Contains(r, "//")
    ensures !Contains(s, Fence) ==> !Contains(r, Fence)
    ensures |r| <= |s|
  {
    RemoveLineCommentsLeavesNone(s);
    assert !Contains(s, Fence) ==> !Contains(RemoveLineComments(s), Fence) by {
      if !Contains(s, Fence) {
        CommentsKeepNone(s, Fence, '`');
      }
    }
    RemoveLineComments(s)
  }

  /** `cleanAIResponse(text)`: empty text gives ""; the result has no white
      space at either end, no triple backtick and no `//`. */
  function CleanAIResponse(text: string): (r: string)
    ensures text == [] ==> r == []
    ensures Trimmed(r)
    ensures !Contains(r, Fence)
    ensures !Contains(r, "//")
  {
    if text == [] then []
    else
      var unfenced := Unfence(Trim(text));
      var noHere := StripLead(unfenced, "Here");
      var noLeadIn := StripLead(noHere, "Converted");
      var noComments := StripComments(noLeadIn);
      SuffixKeepsNone(unfenced, |unfenced| - |noHere|, Fence);
      SuffixKeepsNone(noHere, |noHere| - |noLeadIn|, Fence);
      TrimKeepsNone(noComments, Fence);
      TrimKeepsNone(noComments, "//");
      Trim(noComments)
  }

  /** `sub` is a run of the character `c`. */
  predicate RunOf(sub: string, c: char)
  {
    |sub| > 0 && forall k :: 0 <= k < |sub| ==> sub[k] == c
  }

  /** An occurrence inside a slice is an occurrence in the whole. */
  lemma OccursIn(s: string, a: nat, b: nat, sub: string, k: int)
    requires a <= b <= |s| && OccursAt(s[a..b], sub, k)
    ensures OccursAt(s, sub, a + k)
  {
    var t := s[a..b];
    forall m | 0 <= m < |sub|
      ensures s[a + k..a + k + |sub|][m] == sub[m]
    {
      assert sub[m] == t[k..k + |sub|][m] == t[k + m] == s[a + k + m];
    }
  }

  /** An occurrence that lies within a slice is an occurrence in the slice. */
  lemma OccursOut(s: string, a: nat, b: nat, sub: string, k: int)
    requires a <= k && k + |sub| <= b <= |s| && OccursAt(s, sub, k)
    ensures OccursAt(s[a..b], sub, k - a)
  {
    var t := s[a..b];
    forall m | 0 <= m < |sub|
      ensures t[k - a..k - a + |sub|][m] == sub[m]
    {
      assert sub[m] == s[k..k + |sub|][m] == s[k + m] == t[k - a + m];
    }
  }

  /** Every character an occurrence of a run of `c` covers is `c`. */
  lemma RunCovers(s: string, sub: string, c: char, k: int, m: int)
    requires RunOf(sub, c) && OccursAt(s, sub, k) && k <= m < k + |sub|
    ensures s[m] == c
  {
    assert s[k..k + |sub|][m - k] == s[m];
  }

  /** A slice holds nothing its whole does not. */
  lemma SliceKeepsNone(s: string, a: nat, b: nat, sub: string)
    requires a <= b <= |s| && !Contains(s, sub)
    ensures !Contains(s[a..b], sub)
  {
    if Contains(s[a..b], sub) {
      var k :| 0 <= k <= |s[a..b]| - |sub| && OccursAt(s[a..b], sub, k);
      OccursIn(s, a, b, sub, k);
    }
  }

  lemma SuffixKeepsNone(s: string, a: nat, sub: string)
    requires a <= |s| && !Contains(s, sub)
    ensures !Contains(s[a..], sub)
  {
    SliceKeepsNone(s, a, |s|, sub);
    assert s[a..|s|] == s[a..];
  }

  /** Joining two pieces free of a run of `c` makes no run across the seam
      when the seam is not between two `c`s. */
  lemma JoinKeepsNone(a: string, b: string, sub: string, c: char)
    requires RunOf(sub, c)
    requires !Contains(a, sub) && !Contains(b, sub)
    requires a == [] || b == [] || a[|a| - 1] != c || b[0] != c
    ensures !Contains(a + b, sub)
  {
    var s := a + b;
    if Contains(s, sub) {
      var k :| 0 <= k <= |s| - |sub| && OccursAt(s, sub, k);
      if k + |sub| <= |a| {
        OccursOut(s, 0, |a|, sub, k);
      } else if k >= |a| {
        assert s[|a|..|s|] == b;
        OccursOut(s, |a|, |s|, sub, k);
      } else {
        RunCovers(s, sub, c, k, |a| - 1);
        RunCovers(s, sub, c, k, |a|);
      }
    }
  }

  /** The text before the first occurrence of a run of `c` has no
      occurrence and does not end in `c`. */
  lemma BeforeFirst(s: string, sub: string, c: char, i: nat)
    requires RunOf(sub, c) && i <= |s|
    requires forall k :: 0 <= k < i ==> !OccursAt(s, sub, k)
    requires OccursAt(s, sub, i)
    ensures !Contains(s[..i], sub)
    ensures i == 0 || s[i - 1] != c
  {
    if Contains(s[..i], sub) {
      var k :| 0 <= k <= i - |sub| && OccursAt(s[..i], sub, k);
      assert s[0..i] == s[..i];
      OccursIn(s, 0, i, sub, k);
    }
    if i > 0 && s[i - 1] == c {
      forall m | 0 <= m < |sub|
        ensures s[i - 1..i - 1 + |sub|][m] == sub[m]
      {
        if m > 0 {
          RunCovers(s, sub, c, i, i - 1 + m);
        }
      }
      assert OccursAt(s, sub, i - 1);
    }
  }

  /** No run of `c` survives its global removal. */
  lemma {:induction false} RemoveAllLeavesNone(s: string, sub: string, c: char)
    requires RunOf(sub, c)
    ensures !Contains(RemoveAll(s, sub), sub)
    decreases |s|
  {
    var i := FindFrom(s, sub, 0);
    if i < 0 {
      assert forall k :: 0 <= k ==> !OccursAt(s, sub, k);
    } else {
      BeforeFirst(s, sub, c, i);
      RemoveAllLeavesNone(s[i + |sub|..], sub, c);
      JoinKeepsNone(s[..i], RemoveAll(s[i + |sub|..], sub), sub, c);
    }
  }

  /** Removing comments keeps the first character when it is not '/'. */
  lemma {:induction false} CommentsKeepFirst(s: string)
    requires s != [] && s[0] != '/'
    ensures RemoveLineComments(s) != [] && RemoveLineComments(s)[0] == s[0]
  {
    var i := FindFrom(s, "//", 0);
  }

  /** Removing comments creates no run of a character that is not a line
      terminator. */
  lemma {:induction false} CommentsKeepNone(s: string, sub: string, c: char)
    requires RunOf(sub, c) && !IsLineTerminator(c) && c != '/'
    requires !Contains(s, sub)
    ensures !Contains(RemoveLineComments(s), sub)
    decreases |s|
  {
    var i := FindFrom(s, "//", 0);
    if i >= 0 {
      var k := LineEnd(s, i + 2);
      SliceKeepsNone(s, 0, i, sub);
      assert s[0..i] == s[..i];
      SuffixKeepsNone(s, k, sub);
      CommentsKeepNone(s[k..], sub, c);
      if k < |s| {
        CommentsKeepFirst(s[k..]);
      }
      JoinKeepsNone(s[..i], RemoveLineComments(s[k..]), sub, c);
    }
  }

  /** No `//` survives comment removal. */
  lemma {:induction false} RemoveLineCommentsLeavesNone(s: string)
    ensures !Contains(RemoveLineComments(s), "//")
    decreases |s|
  {
    var i := FindFrom(s, "//", 0);
    if i < 0 {
      assert forall k :: 0 <= k ==> !OccursAt(s, "//", k);
    } else {
      var k := LineEnd(s, i + 2);
      BeforeFirst(s, "//", '/', i);
      RemoveLineCommentsLeavesNone(s[k..]);
      if k < |s| {
        CommentsKeepFirst(s[k..]);
      }
      JoinKeepsNone(s[..i], RemoveLineComments(s[k..]), "//", '/');
    }
  }

  /** Text without a `//` is kept as it is. */
  lemma NoCommentKept(s: string)
    ensures !Contains(s, "//") ==> RemoveLineComments(s) == s
  {
    var i := FindFrom(s, "//", 0);
    if i >= 0 {
      assert OccursAt(s, "//", i);
    }
  }

  /** A comment removes exactly its own line: the text before the `//` and
      everything from the line terminator on are kept. */
  lemma LineCommentRemoved(a: string, c: string, t: string)
    requires !Contains(a, "//") && (a == [] || a[|a| - 1] != '/')
    requires forall k :: 0 <= k < |c| ==> !IsLineTerminator(c[k])
    requires t == [] || IsLineTerminator(t[0])
    ensures RemoveLineComments(a + "//" + c + t) == a + RemoveLineComments(t)
  {
    var s := a + "//" + c + t;
    var e := |a| + 2 + |c|;
    assert a + "//" + (c + t) == s;
    NextComment(a, c + t);
    CommentLineEnd(a, c, t);
    CommentStep(s, |a|, e);
    assert s[..|a|] == a;
    assert s[e..] == t;
  }

  /** One step of comment removal, from the first `//` to its line's end. */
  lemma CommentStep(s: string, i: nat, k: nat)
    requires i + 2 <= |s| && FindFrom(s, "//", 0) == i && LineEnd(s, i + 2) == k
    ensures RemoveLineComments(s) == s[..i] + RemoveLineComments(s[k..])
  {
  }

  /** The comment's line ends right after its text `c`. */
  lemma CommentLineEnd(a: string, c: string, t: string)
    requires forall k :: 0 <= k < |c| ==> !IsLineTerminator(c[k])
    requires t == [] || IsLineTerminator(t[0])
    ensures LineEnd(a + "//" + c + t, |a| + 2) == |a| + 2 + |c|
  {
    var s := a + "//" + c + t;
    var e := |a| + 2 + |c|;
    forall k | |a| + 2 <= k < e ensures !IsLineTerminator(s[k]) {
      assert s[k] == c[k - |a| - 2];
    }
    if e < |s| {
      assert s[e] == t[0];
    }
    LineEndAt(s, |a| + 2, e);
  }

  /** The first `//` is the one right after `a` when `a` holds none and
      does not end in '/'. */
  lemma NextComment(a: string, rest: string)
    requires !Contains(a, "//") && (a == [] || a[|a| - 1] != '/')
    ensures FindFrom(a + "//" + rest, "//", 0) == |a|
  {
    var s := a + "//" + rest;
    var e := |a|;
    assert s[e..e + 2] == "//";
    assert s[0..e] == a;
    assert OccursAt(s, "//", e);
    assert RunOf("//", '/');
    forall k | 0 <= k < e && OccursAt(s, "//", k)
      ensures false
    {
      if k + 2 <= e {
        OccursOut(s, 0, e, "//", k);
      } else {
        RunCovers(s, "//", '/', k, e - 1);
      }
    }
  }

  /** The line ends at the first terminator at or after `from`. */
  lemma {:induction false} LineEndAt(s: string, from: nat, e: nat)
    requires from <= e <= |s|
    requires forall k :: from <= k < e ==> !IsLineTerminator(s[k])
    requires e == |s| || IsLineTerminator(s[e])
    ensures LineEnd(s, from) == e
    decreases e - from
  {
    if from < e {
      LineEndAt(s, from + 1, e);
    }
  }

  /** The next fence at or after `|p|` is the one right after `a` when `a`
      holds none and does not end in a backtick. */
  lemma NextFence(p: string, a: string, rest: string)
    requires !Contains(a, Fence) && (a == [] || a[|a| - 1] != '`')
    ensures FindFrom(p + a + Fence + rest, Fence, |p|) == |p| + |a|
  {
    var s := p + a + Fence + rest;
    var e := |p| + |a|;
    assert s[e..e + 3] == Fence;
    assert s[|p|..e] == a;
    assert OccursAt(s, Fence, e);
    assert RunOf(Fence, '`');
    forall k | |p| <= k < e && OccursAt(s, Fence, k)
      ensures false
    {
      if k + 3 <= e {
        OccursOut(s, |p|, e, Fence, k);
      } else {
        RunCovers(s, Fence, '`', k, e - 1);
      }
    }
  }

  /** Fences pair lazily: the first fence closes at the next fence, and the
      pair goes together with what it encloses. */
  lemma FencePairRemoved(a: string, b: string, c: string)
    requires !Contains(a, Fence) && (a == [] || a[|a| - 1] != '`')
    requires !Contains(b, Fence) && (b == [] || b[|b| - 1] != '`')
    ensures RemoveFencedBlocks(a + Fence + b + Fence + c) == a + RemoveFencedBlocks(c)
  {
    var s := a + Fence + b + Fence + c;
    var j := |a| + 3 + |b|;
    FencePairFound(a, b, c);
    FencedStep(s, |a|, j);
    assert s[..|a|] == a;
    assert s[j + 3..] == c;
  }

  lemma FencePairFound(a: string, b: string, c: string)
    requires !Contains(a, Fence) && (a == [] || a[|a| - 1] != '`')
    requires !Contains(b, Fence) && (b == [] || b[|b| - 1] != '`')
    ensures FindFrom(a + Fence + b + Fence + c, Fence, 0) == |a|
    ensures FindFrom(a + Fence + b + Fence + c, Fence, |a| + 3) == |a| + 3 + |b|
  {
    var s := a + Fence + b + Fence + c;
    NextFence([], a, b + Fence + c);
    assert [] + a + Fence + (b + Fence + c) == s;
    NextFence(a + Fence, b, c);
  }

  lemma FencedStep(s: string, i: nat, j: nat)
    requires FindFrom(s, Fence, 0) == i && FindFrom(s, Fence, i + 3) == j
    ensures RemoveFencedBlocks(s) == s[..i] + RemoveFencedBlocks(s[j + 3..])
  {
    assert i >= 0 && j >= 0;
  }

  /** An answer that is one fenced block loses everything to fence
      removal: the code inside the fences goes with them. */
  lemma FencePairAlone(code: string)
    requires !Contains(code, Fence) && (code == [] || code[|code| - 1] != '`')
    ensures Unfence(Fence + code + Fence) == []
  {
    var e: string := [];
    var s := Fence + code + Fence;
    assert !Contains(e, Fence);
    FencePairRemoved(e, code, e);
    assert e + Fence + code + Fence + e == s;
  }

  /** The lead-in is removed only at the start: what is removed is the
      word in some letter case followed by text up to the first ':', all on
      the first line; and such a lead-in, when present, is removed. */
  lemma StripLeadRemovesLeadIn(s: string, word: string)
    ensures var r := StripLead(s, word);
      r != s ==>
        var n := |s| - |r|;
        && |word| < n
        && EqualIgnoringCase(s[..|word|], word)
        && s[n - 1] == ':'
        && forall k :: |word| <= k < n - 1 ==> s[k] != ':' && !IsLineTerminator(s[k])
    ensures forall n: nat ::
      && |word| < n <= |s|
      && EqualIgnoringCase(s[..|word|], word)
      && s[n - 1] == ':'
      && (forall k :: |word| <= k < n - 1 ==> s[k] != ':' && !IsLineTerminator(s[k]))
      ==> StripLead(s, word) == s[n..]
  {
  }
}
