/**
 * The two patterns `parseTutorialSteps` applies to a step's content: the hint pattern
 * `(^[\s\S]*?\S)\s*((```|\!\[[\s\S]+?\]\(\S+?\))[\s\S]*)`, which cuts a step at its first
 * code fence or image, and the hidden-snippet pattern
 * `/```(filterblocks|package|ghost|config|template)\s*\n([\s\S]*?)\n```/gmi`, whose matches are
 * deleted from the hint. Both are written out as the first-match searches they perform.
 */
module Hints {
  import opened Wrappers
  import opened Strings
  import opened Sequences

  /** `\S+?\)` starting at index `j`: one or more non-white characters, then `)`. */
  predicate LinkTargetAt(s: string, j: nat)
    decreases |s| - j
  {
    j + 1 < |s| && !IsWhite(s[j]) && (s[j + 1] == ')' || LinkTargetAt(s, j + 1))
  }

  /** `\]\(\S+?\)` starting at some index `>= i`. */
  predicate LinkCloseFrom(s: string, i: nat)
    decreases |s| - i
  {
    i + 1 < |s| && ((s[i] == ']' && s[i + 1] == '(' && LinkTargetAt(s, i + 2)) || LinkCloseFrom(s, i + 1))
  }

  /** An image embed `![..](..)` begins at index `p`: `![`, at least one character, then `](target)`. */
  predicate ImageAt(s: string, p: nat) {
    p + 1 < |s| && s[p] == '!' && s[p + 1] == '[' && LinkCloseFrom(s, p + 3)
  }

  /** A hint marker, a code fence or an image, begins at index `p`. */
  predicate MarkerAt(s: string, p: nat) {
    p <= |s| && (StartsWith(s[p..], "```") || ImageAt(s, p))
  }

  /** The first index `>= from` where a marker begins, or `|s|` when there is none. */
  function FirstMarker(s: string, from: nat): (p: nat)
    requires from <= |s|
    ensures from <= p <= |s|
    ensures p < |s| ==> MarkerAt(s, p)
    ensures forall q :: from <= q < p ==> !MarkerAt(s, q)
    decreases |s| - from
  {
    if from == |s| || MarkerAt(s, from) then from else FirstMarker(s, from + 1)
  }

  /** Some character before index `q` is not white space: the `[\s\S]*?\S` group can end before `q`. */
  lemma {:induction false} NonWhiteBefore(c: string, q: nat)
    requires q <= |c|
    ensures !AllWhite(c[..q]) <==> WhiteRun(c) < q
  {
    var w := WhiteRun(c);
    if q <= w {
      assert forall k :: 0 <= k < q ==> c[..q][k] == c[..w][k];
    } else {
      assert c[..q][w] == c[w];
    }
  }

  /** Only a position after the leading white space can end the `[\s\S]*?\S` group. */
  lemma {:induction false} NonWhiteOnlyAfterRun(c: string)
    ensures forall q :: 0 < q <= |c| && !AllWhite(c[..q]) ==> WhiteRun(c) < q
  {
    forall q | 0 < q <= |c| && !AllWhite(c[..q]) ensures WhiteRun(c) < q { NonWhiteBefore(c, q); }
  }

  /** Group 1 of the hint pattern for a marker at `p`: `c[..p]` without its trailing white space. */
  lemma {:induction false} HeaderShape(c: string, p: nat)
    requires WhiteRun(c) < p <= |c|
    ensures var header := TrimEnd(c[..p]);
      0 < |header| <= p && header == c[..|header|] && AllWhite(c[|header|..p])
      && !IsWhite(header[|header| - 1])
  {
    var w := WhiteRun(c);
    var header := TrimEnd(c[..p]);
    assert c[..p][w] == c[w];
    assert |header| > w;
    assert c[|header|..p] == c[..p][|header|..];
  }

  /**
   * The hint pattern applied to step content `c`: `None` when it does not match, otherwise
   * `(group 1, group 2)` — the text before the first marker that follows a non-white
   * character, without its trailing white space, and everything from that marker on.
   * `HintSplitIsFirstMatch` says which marker that is.
   */
  function HintSplit(c: string): (r: Option<(string, string)>)
    ensures r.Some? ==>
      var (header, hint) := r.value;
      var p := |c| - |hint|;
      0 < p < |c| && hint == c[p..] && MarkerAt(c, p)
      && 0 < |header| <= p && header == c[..|header|] && AllWhite(c[|header|..p])
      && !IsWhite(header[|header| - 1])
  {
    var w := WhiteRun(c);
    if w == |c| then None
    else
      var p := FirstMarker(c, w + 1);
      if p == |c| then None
      else
        HeaderShape(c, p);
        Some((TrimEnd(c[..p]), c[p..]))
  }

  /**
   * The hint pattern matches exactly when some marker follows a non-white character, and it
   * cuts at the first such marker.
   */
  lemma {:induction false} HintSplitIsFirstMatch(c: string)
    ensures HintSplit(c).None? <==> forall q :: 0 < q < |c| && !AllWhite(c[..q]) ==> !MarkerAt(c, q)
    ensures HintSplit(c).Some? ==>
      var p := |c| - |HintSplit(c).value.1|;
      !AllWhite(c[..p]) && forall q :: 0 < q < p && !AllWhite(c[..q]) ==> !MarkerAt(c, q)
  {
    var w := WhiteRun(c);
    NonWhiteOnlyAfterRun(c);
    if w < |c| {
      var p := FirstMarker(c, w + 1);
      if p < |c| {
        NonWhiteBefore(c, p);
      }
    }
  }

  /** Where the hint pattern matches, the content is group 1, white space, then group 2. */
  lemma {:induction false} HintSplitShape(c: string, header: string, hint: string)
    requires HintSplit(c) == Some((header, hint))
    ensures |header| <= |c| - |hint|
    ensures c == header + c[|header|..|c| - |hint|] + hint
    ensures AllWhite(c[|header|..|c| - |hint|])
  {
    var p := |c| - |hint|;
    assert c == c[..p] + c[p..];
    assert c[..p] == c[..|header|] + c[|header|..p];
  }

  const HiddenTags: seq<string> := ["filterblocks", "package", "ghost", "config", "template"]

  /** Length of the first hidden-snippet tag (ASCII case ignored) that `s` starts with, scanning from tag `k`; 0 when none does. */
  function HiddenTagLength(s: string, k: nat): (n: nat)
    ensures n > 0 ==> exists j :: k <= j < |HiddenTags| && n == |HiddenTags[j]| && StartsWithIgnoreCase(s, HiddenTags[j])
    ensures n == 0 ==> forall j :: k <= j < |HiddenTags| ==> !StartsWithIgnoreCase(s, HiddenTags[j])
    decreases |HiddenTags| - k
  {
    if k >= |HiddenTags| then 0
    else if StartsWithIgnoreCase(s, HiddenTags[k]) then |HiddenTags[k]|
    else HiddenTagLength(s, k + 1)
  }

  /** Index of the last occurrence of `c` in `s`, which must contain it. */
  function LastIndexOf(s: string, c: char): (i: nat)
    requires c in s
    ensures i < |s| && s[i] == c
    ensures forall k :: i < k < |s| ==> s[k] != c
  {
    if s[|s| - 1] == c then |s| - 1 else LastIndexOf(s[..|s| - 1], c)
  }

  /** The closing `\n```` of a snippet begins at index `q`. */
  predicate CloseAt(s: string, q: nat) {
    q + 4 <= |s| && s[q..q + 4] == "\n```"
  }

  /** The first index `>= from` where the closing `\n```` of a snippet begins, or `|s|`. */
  function CloseFrom(s: string, from: nat): (q: nat)
    requires from <= |s|
    ensures from <= q <= |s|
    ensures q < |s| ==> CloseAt(s, q)
    ensures forall k :: from <= k < q ==> !CloseAt(s, k)
    decreases |s| - from
  {
    if from == |s| || CloseAt(s, from) then from else CloseFrom(s, from + 1)
  }

  /**
   * The part `\s*\n([\s\S]*?)\n```` of the hidden-snippet pattern, tried at index `a`: the end of
   * its match, or 0 when it does not match. `\s*\n` backtracks from the last newline of the white
   * run at `a`; it can only fall back to an earlier newline when the run ends in a newline directly
   * followed by the closing backticks. `BodyEndSound` and `BodyEndComplete` tie it to `BodyMatch`.
   */
  function BodyEnd(s: string, a: nat): (n: nat)
    requires a <= |s|
    ensures n <= |s|
    ensures n > 0 ==> a < n
  {
    var e := a + WhiteRun(s[a..]);
    var gap := s[a..e];
    if '\n' !in gap then 0
    else
      var lastNewline := a + LastIndexOf(gap, '\n');
      var close := CloseFrom(s, lastNewline + 1);
      if close < |s| then close + 4
      else if FallbackFence(s, a, e, lastNewline) then e + 3
      else 0
  }

  /**
   * The white run `s[a..e]` ends in its last newline, at `last`, directly followed by "```", and
   * holds an earlier newline: `\s*\n` can end at that earlier newline and the fence starts at `last`.
   */
  predicate FallbackFence(s: string, a: nat, e: nat, last: nat) {
    a <= last && last + 1 == e && e + 3 <= |s| && s[e..e + 3] == "```" && '\n' in s[a..e - 1]
  }

  /** Length of the hidden-snippet match at the start of `s`, or 0 when there is none. */
  function HiddenSnippetLength(s: string): (n: nat)
    ensures n <= |s|
    ensures n > 0 ==> StartsWith(s, "```") && n > 3
  {
    if !StartsWith(s, "```") then 0
    else
      var t := HiddenTagLength(s[3..], 0);
      if t == 0 then 0 else BodyEnd(s, 3 + t)
  }

  /**
   * From index `a`, `\s*\n` can end with the newline at `m` and the body after it can end at the
   * closing fence at `q`.
   */
  predicate Candidate(s: string, a: nat, m: nat, q: nat) {
    a <= m < q && CloseAt(s, q) && AllWhite(s[a..m]) && s[m] == '\n'
  }

  /**
   * `\s*\n([\s\S]*?)\n```` matches `s[a..q + 4]`, its `\s*\n` ending with the newline at `m`, as a
   * backtracking matcher chooses: the greedy `\s*` keeps the last newline from which some closing
   * fence can be reached, and the lazy body stops at the first closing fence after that newline.
   */
  predicate BodyMatch(s: string, a: nat, m: nat, q: nat) {
    Candidate(s, a, m, q)
    && (forall k :: m < k < q ==> !CloseAt(s, k))
    && (forall m', q' :: m < m' < q' < |s| ==> !Candidate(s, a, m', q'))
  }

  /** Where the tag `HiddenTags[j]` ends, after the opening backticks. */
  function TagEnd(j: nat): nat
    requires j < |HiddenTags|
  {
    3 + |HiddenTags[j]|
  }

  /**
   * The hidden-snippet pattern matches `s[..q + 4]`: "```", the tag `HiddenTags[j]` in any ASCII
   * case, then `\s*\n([\s\S]*?)\n```` with its `\s*\n` ending at `m`.
   */
  predicate SnippetAt(s: string, j: nat, m: nat, q: nat) {
    j < |HiddenTags| && StartsWith(s, "```") && StartsWithIgnoreCase(s[3..], HiddenTags[j])
    && BodyMatch(s, TagEnd(j), m, q)
  }

  /** `hint.replace(hiddenSnippetRegex, '')`: every hidden snippet, found left to right, is deleted. */
  function StripHidden(s: string): (r: string)
    ensures |r| <= |s|
    decreases |s|
  {
    if |s| == 0 then ""
    else
      var n := HiddenSnippetLength(s);
      if n > 0 then StripHidden(s[n..]) else [s[0]] + StripHidden(s[1..])
  }

  /** No hidden snippet begins anywhere in `s`. */
  predicate NoHiddenSnippet(s: string) {
    forall i :: 0 <= i < |s| ==> HiddenSnippetLength(s[i..]) == 0
  }

  /** Stripping only deletes characters and keeps the rest in order. */
  lemma {:induction false} StripHiddenDeletes(s: string)
    ensures IsSubsequence(StripHidden(s), s)
    decreases |s|
  {
    if |s| > 0 {
      var n := HiddenSnippetLength(s);
      if n > 0 {
        StripHiddenDeletes(s[n..]);
        SubsequenceOfLonger(StripHidden(s), s, n);
      } else {
        StripHiddenDeletes(s[1..]);
        var r := StripHidden(s);
        assert r == [s[0]] + StripHidden(s[1..]);
        assert r[1..] == StripHidden(s[1..]);
      }
    }
  }

  /** A hint without hidden snippets is stored unchanged. */
  lemma {:induction false} StripHiddenNoSnippet(s: string)
    requires NoHiddenSnippet(s)
    ensures StripHidden(s) == s
    decreases |s|
  {
    if |s| > 0 {
      assert HiddenSnippetLength(s[0..]) == 0;
      assert s[0..] == s;
      assert NoHiddenSnippet(s[1..]) by {
        forall i | 0 <= i < |s[1..]| ensures HiddenSnippetLength(s[1..][i..]) == 0 {
          assert s[1..][i..] == s[i + 1..];
        }
      }
      StripHiddenNoSnippet(s[1..]);
    }
  }

  /** The hidden tags start with five different letters, so at most one of them begins a text. */
  lemma {:induction false} HiddenTagUnique(x: string, i: nat, j: nat)
    requires i < |HiddenTags| && j < |HiddenTags|
    requires StartsWithIgnoreCase(x, HiddenTags[i]) && StartsWithIgnoreCase(x, HiddenTags[j])
    ensures i == j
  {
    assert LowerChar(x[..|HiddenTags[i]|][0]) == LowerChar(HiddenTags[i][0]);
    assert LowerChar(x[..|HiddenTags[j]|][0]) == LowerChar(HiddenTags[j][0]);
  }

  /** A text that starts with hidden tag `j` gets that tag's length from `HiddenTagLength`. */
  lemma {:induction false} TagLengthOf(x: string, j: nat)
    requires j < |HiddenTags| && StartsWithIgnoreCase(x, HiddenTags[j])
    ensures HiddenTagLength(x, 0) == |HiddenTags[j]|
  {
    var n := HiddenTagLength(x, 0);
    assert n > 0;
    var i :| 0 <= i < |HiddenTags| && n == |HiddenTags[i]| && StartsWithIgnoreCase(x, HiddenTags[i]);
    HiddenTagUnique(x, i, j);
  }

  /** The white run that starts at index `a` ends at `a + WhiteRun(s[a..])`. */
  lemma {:induction false} WhiteGap(s: string, a: nat)
    requires a <= |s|
    ensures var e := a + WhiteRun(s[a..]);
      e <= |s| && (forall k :: a <= k < e ==> IsWhite(s[k])) && (e < |s| ==> !IsWhite(s[e]))
  {
    var e := a + WhiteRun(s[a..]);
    forall k | a <= k < e ensures IsWhite(s[k]) {
      assert s[k] == s[a..][..e - a][k - a];
    }
  }

  /** No candidate newline lies at or after the end `e` of the white run at `a`. */
  lemma {:induction false} NoCandidateBeyondGap(s: string, a: nat, e: nat)
    requires a <= e <= |s| && (e < |s| ==> !IsWhite(s[e]))
    ensures forall m, q :: e <= m ==> !Candidate(s, a, m, q)
  {
    forall m, q | e <= m ensures !Candidate(s, a, m, q) {
      if e < m <= |s| {
        assert s[a..m][e - a] == s[e];
      }
    }
  }

  /** The characters of a closing fence. */
  lemma {:induction false} CloseAtChars(s: string, q: nat)
    requires CloseAt(s, q)
    ensures s[q] == '\n' && s[q + 1] == '`' && s[q + 1..q + 4] == "```"
  {
    assert s[q] == s[q..q + 4][0];
    assert s[q + 1] == s[q..q + 4][1];
    assert s[q + 1..q + 4] == s[q..q + 4][1..];
  }

  /** No closing fence starts inside the white run, one before its end at the latest. */
  lemma {:induction false} NoCloseInGap(s: string, a: nat, e: nat)
    requires a <= e <= |s| && forall k :: a <= k < e ==> IsWhite(s[k])
    ensures forall k :: a <= k && k + 1 < e ==> !CloseAt(s, k)
  {
    forall k | a <= k && k + 1 < e ensures !CloseAt(s, k) {
      if CloseAt(s, k) {
        CloseAtChars(s, k);
      }
    }
  }

  /** When a closing fence follows the last newline of the white run, the match ends there. */
  lemma {:induction false} BodyEndPrimary(s: string, a: nat, e: nat, last: nat)
    requires a <= last < e <= |s| && (forall k :: a <= k < e ==> IsWhite(s[k])) && (e < |s| ==> !IsWhite(s[e]))
    requires s[last] == '\n' && forall k :: last < k < e ==> s[k] != '\n'
    requires CloseFrom(s, last + 1) < |s|
    ensures BodyMatch(s, a, last, CloseFrom(s, last + 1))
  {
    NoCandidateBeyondGap(s, a, e);
    assert AllWhite(s[a..last]);
  }

  /**
   * When no closing fence follows the last newline `last` of the white run, which ends at `e`, the
   * matcher falls back to the newline `m` before it, and the closing fence is `last` itself.
   */
  lemma {:induction false} BodyEndFallback(s: string, a: nat, e: nat, last: nat, m: nat)
    requires a <= m < last && last + 1 == e && e + 3 <= |s| && s[e..e + 3] == "```"
    requires (forall k :: a <= k < e ==> IsWhite(s[k])) && !IsWhite(s[e])
    requires s[m] == '\n' && s[last] == '\n' && forall k :: m < k < last ==> s[k] != '\n'
    requires CloseFrom(s, last + 1) == |s|
    ensures BodyMatch(s, a, m, last)
  {
    NoCandidateBeyondGap(s, a, e);
    NoCloseInGap(s, a, e);
    assert s[last..last + 4] == [s[last]] + s[e..e + 3];
    assert AllWhite(s[a..m]);
  }

  /** The last newline in `s[a..e]`, which holds one. */
  lemma {:induction false} LastNewline(s: string, a: nat, e: nat) returns (last: nat)
    requires a <= e <= |s| && '\n' in s[a..e]
    ensures last == a + LastIndexOf(s[a..e], '\n')
    ensures a <= last < e && s[last] == '\n' && forall k :: last < k < e ==> s[k] != '\n'
  {
    var gap := s[a..e];
    last := a + LastIndexOf(gap, '\n');
    assert s[last] == gap[last - a];
    forall k | last < k < e ensures s[k] != '\n' {
      assert s[k] == gap[k - a];
    }
  }

  /**
   * `BodyEnd` at `a` when the white run there holds a newline: the run ends at `e`, its last
   * newline is at `last`, and `close` is the first closing fence after that newline.
   */
  lemma {:induction false} BodyEndUnfold(s: string, a: nat) returns (e: nat, last: nat, close: nat)
    requires a <= |s| && '\n' in s[a..a + WhiteRun(s[a..])]
    ensures e == a + WhiteRun(s[a..]) && a <= last < e <= |s|
    ensures (forall k :: a <= k < e ==> IsWhite(s[k])) && (e < |s| ==> !IsWhite(s[e]))
    ensures s[last] == '\n' && forall k :: last < k < e ==> s[k] != '\n'
    ensures close == CloseFrom(s, last + 1)
    ensures close < |s| ==> BodyEnd(s, a) == close + 4
    ensures close == |s| ==> (BodyEnd(s, a) > 0 <==> FallbackFence(s, a, e, last))
    ensures close == |s| && BodyEnd(s, a) > 0 ==> BodyEnd(s, a) == e + 3
  {
    e := a + WhiteRun(s[a..]);
    WhiteGap(s, a);
    last := LastNewline(s, a, e);
    close := CloseFrom(s, last + 1);
    BodyEndValue(s, a, e, last);
  }

  /** The value of `BodyEnd` once the white run's end and its last newline are known. */
  lemma {:induction false} BodyEndValue(s: string, a: nat, e: nat, last: nat)
    requires a <= |s| && e == a + WhiteRun(s[a..]) && '\n' in s[a..e]
    requires last == a + LastIndexOf(s[a..e], '\n')
    ensures CloseFrom(s, last + 1) < |s| ==> BodyEnd(s, a) == CloseFrom(s, last + 1) + 4
    ensures CloseFrom(s, last + 1) == |s| ==> BodyEnd(s, a) == if FallbackFence(s, a, e, last) then e + 3 else 0
  {
  }

  /** Whatever `BodyEnd` finds is a match of `\s*\n([\s\S]*?)\n````. */
  lemma {:induction false} BodyEndSound(s: string, a: nat)
    requires a <= |s| && BodyEnd(s, a) > 0
    ensures exists m, q :: q + 4 == BodyEnd(s, a) && BodyMatch(s, a, m, q)
  {
    assert '\n' in s[a..a + WhiteRun(s[a..])];
    var e, last, close := BodyEndUnfold(s, a);
    if close < |s| {
      BodyEndPrimary(s, a, e, last);
      assert BodyMatch(s, a, last, close);
    } else {
      var m := LastNewline(s, a, e - 1);
      BodyEndFallback(s, a, e, last, m);
      assert BodyMatch(s, a, m, last);
    }
  }

  /** The newline that ends the `\s*\n` of a match lies in the white run at `a`. */
  lemma {:induction false} MatchInGap(s: string, a: nat, m: nat, q: nat)
    requires a <= |s| && Candidate(s, a, m, q)
    ensures m < a + WhiteRun(s[a..]) && '\n' in s[a..a + WhiteRun(s[a..])]
  {
    var e := a + WhiteRun(s[a..]);
    WhiteGap(s, a);
    NoCandidateBeyondGap(s, a, e);
    assert s[a..e][m - a] == '\n';
  }

  /** A match whose `\s*\n` ends in the white run, when a closing fence follows the run's last newline. */
  lemma {:induction false} MatchAtLastNewline(s: string, a: nat, m: nat, q: nat, e: nat, last: nat)
    requires a <= last < e <= |s| && forall k :: a <= k < e ==> IsWhite(s[k])
    requires s[last] == '\n' && forall k :: last < k < e ==> s[k] != '\n'
    requires BodyMatch(s, a, m, q) && m < e && CloseFrom(s, last + 1) < |s|
    ensures m == last && CloseFrom(s, last + 1) == q
  {
    assert AllWhite(s[a..last]);
    assert Candidate(s, a, last, CloseFrom(s, last + 1));
  }

  /** A match whose `\s*\n` ends in the white run, when no closing fence follows the run's last newline. */
  lemma {:induction false} MatchAtFallback(s: string, a: nat, m: nat, q: nat, e: nat, last: nat)
    requires a <= last < e <= |s| && forall k :: a <= k < e ==> IsWhite(s[k])
    requires s[last] == '\n' && forall k :: last < k < e ==> s[k] != '\n'
    requires BodyMatch(s, a, m, q) && m < e && CloseFrom(s, last + 1) == |s|
    ensures q == last && FallbackFence(s, a, e, last)
  {
    CloseAtChars(s, q);
    NoCloseInGap(s, a, e);
    assert q + 1 == e;
    assert s[a..e - 1][m - a] == '\n';
  }

  /** Every match of `\s*\n([\s\S]*?)\n```` is what `BodyEnd` finds. */
  lemma {:induction false} BodyEndComplete(s: string, a: nat, m: nat, q: nat)
    requires a <= |s| && BodyMatch(s, a, m, q)
    ensures BodyEnd(s, a) == q + 4
  {
    MatchInGap(s, a, m, q);
    var e, last, close := BodyEndUnfold(s, a);
    if close < |s| {
      MatchAtLastNewline(s, a, m, q, e, last);
    } else {
      MatchAtFallback(s, a, m, q, e, last);
    }
  }

  /** Whatever `HiddenSnippetLength` finds is a match of the hidden-snippet pattern. */
  lemma {:induction false} HiddenSnippetSound(s: string)
    requires HiddenSnippetLength(s) > 0
    ensures exists j, m, q :: q + 4 == HiddenSnippetLength(s) && SnippetAt(s, j, m, q)
  {
    var t := HiddenTagLength(s[3..], 0);
    var j :| 0 <= j < |HiddenTags| && t == |HiddenTags[j]| && StartsWithIgnoreCase(s[3..], HiddenTags[j]);
    assert HiddenSnippetLength(s) == BodyEnd(s, TagEnd(j));
    BodyEndSound(s, TagEnd(j));
    var m, q :| q + 4 == BodyEnd(s, TagEnd(j)) && BodyMatch(s, TagEnd(j), m, q);
    assert SnippetAt(s, j, m, q);
  }

  /** Every match of the hidden-snippet pattern is what `HiddenSnippetLength` finds. */
  lemma {:induction false} HiddenSnippetComplete(s: string, j: nat, m: nat, q: nat)
    requires SnippetAt(s, j, m, q)
    ensures HiddenSnippetLength(s) == q + 4
  {
    TagLengthOf(s[3..], j);
    BodyEndComplete(s, TagEnd(j), m, q);
  }

  /** A hidden snippet begins `s` exactly when `HiddenSnippetLength` finds one. */
  lemma {:induction false} HiddenSnippetExists(s: string)
    ensures HiddenSnippetLength(s) > 0 <==> exists j, m, q :: SnippetAt(s, j, m, q)
  {
    if HiddenSnippetLength(s) > 0 {
      HiddenSnippetSound(s);
    }
    if exists j, m, q :: SnippetAt(s, j, m, q) {
      var j, m, q :| SnippetAt(s, j, m, q);
      HiddenSnippetComplete(s, j, m, q);
    }
  }

  /**
   * The scan of `replace`: a hidden snippet at the start of the text is deleted and the scan goes
   * on after it; otherwise the first character is kept and the scan moves on by one.
   */
  lemma {:induction false} StripHiddenSpec(s: string)
    ensures s == [] ==> StripHidden(s) == []
    ensures forall j, m, q :: SnippetAt(s, j, m, q) ==> StripHidden(s) == StripHidden(s[q + 4..])
    ensures |s| > 0 && (forall j, m, q :: !SnippetAt(s, j, m, q)) ==> StripHidden(s) == [s[0]] + StripHidden(s[1..])
  {
    forall j, m, q | SnippetAt(s, j, m, q) ensures StripHidden(s) == StripHidden(s[q + 4..]) {
      StripSnippet(s, j, m, q);
    }
    if |s| > 0 && forall j, m, q :: !SnippetAt(s, j, m, q) {
      StripNoSnippet(s);
    }
  }

  /** A hidden snippet at the start of the text is deleted. */
  lemma {:induction false} StripSnippet(s: string, j: nat, m: nat, q: nat)
    requires SnippetAt(s, j, m, q)
    ensures StripHidden(s) == StripHidden(s[q + 4..])
  {
    HiddenSnippetComplete(s, j, m, q);
  }

  /** Without a hidden snippet at the start of the text, its first character is kept. */
  lemma {:induction false} StripNoSnippet(s: string)
    requires |s| > 0 && forall j, m, q :: !SnippetAt(s, j, m, q)
    ensures StripHidden(s) == [s[0]] + StripHidden(s[1..])
  {
    if HiddenSnippetLength(s) > 0 {
      HiddenSnippetSound(s);
    }
  }
}
