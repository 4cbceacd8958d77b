/**
 * The snippet patcher, `patchArcadeSnippets`: on the arcade targets, a legacy
 * `enum SpriteKind { ... }` declaration is rewritten into a `namespace SpriteKind` block that
 * creates one kind per user-defined name, or deleted when it names only built-in kinds.
 * The pattern `enum\s+SpriteKind\s*{((?:[^}]|\s)+)}` is written out as the match it performs.
 */
module Patcher {
  import opened Wrappers
  import opened Strings
  import opened Sequences

  const Builtin: seq<string> := ["Player", "Projectile", "Enemy", "Food"]

  /** The target ids the patch applies to. */
  predicate IsArcadeTarget(targetId: string) {
    targetId == "arcade" || targetId == "pxt-32"
  }

  /** `lit` occurs in `s` at index `i`. */
  predicate HasAt(s: string, i: nat, lit: string) {
    i + |lit| <= |s| && s[i..i + |lit|] == lit
  }

  /** The end of the run of white space that starts at index `i`. */
  function SkipWhite(s: string, i: nat): (j: nat)
    requires i <= |s|
    ensures i <= j <= |s|
    decreases |s| - i
  {
    if i < |s| && IsWhite(s[i]) then SkipWhite(s, i + 1) else i
  }

  /** The index of the first `}` at or after `i`, or `|s|`. */
  function FindClose(s: string, i: nat): (c: nat)
    requires i <= |s|
    ensures i <= c <= |s|
    decreases |s| - i
  {
    if i == |s| || s[i] == '}' then i else FindClose(s, i + 1)
  }

  /**
   * A declaration match at index `i`: `enum`, white space, `SpriteKind`, optional white space,
   * `{`, a non-empty body without `}`, then `}`. Gives where the body starts and where the match
   * ends; the body is `s[start..end - 1]`. Backtracking cannot help: `S` and `{` are not white
   * space, and the body cannot hold `}`.
   */
  function MatchAt(s: string, i: nat): (r: Option<(nat, nat)>)
    requires i <= |s|
    ensures r.Some? ==> i < r.value.0 < r.value.1 - 1 && r.value.1 <= |s|
  {
    if !HasAt(s, i, "enum") then None
    else
      var j := SkipWhite(s, i + 4);
      if j == i + 4 || !HasAt(s, j, "SpriteKind") then None
      else
        var k := SkipWhite(s, j + 10);
        if k == |s| || s[k] != '{' then None
        else
          var c := FindClose(s, k + 1);
          if c == |s| || c == k + 1 then None else Some((k + 1, c + 1))
  }

  /** Index of the first declaration match at or after `from`, or `|s|` when there is none. */
  function FirstMatch(s: string, from: nat): (i: nat)
    requires from <= |s|
    ensures from <= i <= |s|
    ensures i < |s| ==> MatchAt(s, i).Some?
    decreases |s| - from
  {
    if from == |s| || MatchAt(s, from).Some? then from else FirstMatch(s, from + 1)
  }

  /**
   * `s.replace(declRegex, rep)` from index `from` on: the text up to the next match is kept, the
   * match becomes `rep`, and the search goes on after the match.
   */
  function ReplaceFrom(s: string, from: nat, rep: string): string
    requires from <= |s|
    decreases |s| - from
  {
    var i := FirstMatch(s, from);
    if i == |s| then s[from..]
    else s[from..i] + rep + ReplaceFrom(s, MatchAt(s, i).value.1, rep)
  }

  /** `s.replace(declRegex, rep)`. */
  function ReplaceAll(s: string, rep: string): string {
    ReplaceFrom(s, 0, rep)
  }

  /** The separators of `split(/(?:\s|,)+/)`. */
  predicate IsSeparator(c: char) {
    IsWhite(c) || c == ','
  }

  /** Index of the first separator, or `|s|`. */
  function SeparatorIndex(s: string): (i: nat)
    ensures i <= |s|
  {
    if |s| == 0 || IsSeparator(s[0]) then 0 else 1 + SeparatorIndex(s[1..])
  }

  /** Length of the run of separators at the start of `s`. */
  function SeparatorRun(s: string): (n: nat)
    ensures n <= |s|
  {
    if |s| > 0 && IsSeparator(s[0]) then 1 + SeparatorRun(s[1..]) else 0
  }

  /** No character of `s` is a separator. */
  predicate NoSeparator(s: string) {
    forall j :: 0 <= j < |s| ==> !IsSeparator(s[j])
  }

  /** Every character of `s` is a separator. */
  predicate AllSeparators(s: string) {
    forall j :: 0 <= j < |s| ==> IsSeparator(s[j])
  }

  /** No token holds a separator. */
  predicate NoSeparators(tokens: seq<string>) {
    forall k :: 0 <= k < |tokens| ==> NoSeparator(tokens[k])
  }

  /**
   * `s.split(/(?:\s|,)+/)`: the pieces between runs of separators; a leading or trailing run
   * gives an empty first or last piece.
   */
  function SplitRuns(s: string): (r: seq<string>)
    ensures |r| >= 1
    decreases |s|
  {
    var i := SeparatorIndex(s);
    if i == |s| then [s]
    else
      var n := SeparatorRun(s[i..]);
      [s[..i]] + SplitRuns(s[i + n..])
  }

  /** The runs of separators that `SplitRuns` cuts at, in order. */
  function SeparatorRuns(s: string): (r: seq<string>)
    decreases |s|
  {
    var i := SeparatorIndex(s);
    if i == |s| then []
    else
      var n := SeparatorRun(s[i..]);
      [s[i..i + n]] + SeparatorRuns(s[i + n..])
  }

  /** The tokens with the runs put back between them. */
  function Rejoin(tokens: seq<string>, runs: seq<string>): string
    requires |tokens| == |runs| + 1
  {
    if |runs| == 0 then tokens[0] else tokens[0] + runs[0] + Rejoin(tokens[1..], runs[1..])
  }

  /**
   * `tokens` and `runs` cut `s` the way the split does: the runs are non-empty and all
   * separators, the tokens hold none, every token between two runs is non-empty (so every run is
   * a maximal one), and putting the runs back between the tokens gives `s`.
   */
  predicate Tokenization(s: string, tokens: seq<string>, runs: seq<string>) {
    |tokens| == |runs| + 1 && NoSeparators(tokens) && SeparatorRunsOnly(runs) && InnerTokensNonEmpty(tokens)
    && Rejoin(tokens, runs) == s
  }

  /** Every run is a non-empty run of separators. */
  predicate SeparatorRunsOnly(runs: seq<string>) {
    forall r :: 0 <= r < |runs| ==> |runs[r]| > 0 && AllSeparators(runs[r])
  }

  /** Every token other than the first and the last is non-empty. */
  predicate InnerTokensNonEmpty(tokens: seq<string>) {
    forall k :: 0 < k < |tokens| - 1 ==> |tokens[k]| > 0
  }

  /** `/[a-zA-Z]+/.test(n)`: some character is an ASCII letter. */
  predicate HasLetter(n: string) {
    exists k :: 0 <= k < |n| && (('a' <= n[k] <= 'z') || ('A' <= n[k] <= 'Z'))
  }

  /** A trimmed token survives both filters. */
  predicate IsUserKind(n: string) {
    HasLetter(n) && n !in Builtin
  }

  /** `tokens.map(n => n.trim())`. */
  function TrimAll(tokens: seq<string>): (r: seq<string>)
    ensures |r| == |tokens|
    ensures forall k :: 0 <= k < |tokens| ==> r[k] == Trim(tokens[k])
  {
    if |tokens| == 0 then [] else [Trim(tokens[0])] + TrimAll(tokens[1..])
  }

  /** `.filter(n => /[a-zA-Z]+/.test(n)).filter(n => builtin.indexOf(n) === -1)`. */
  function UserKinds(tokens: seq<string>): seq<string> {
    if |tokens| == 0 then []
    else (if IsUserKind(tokens[0]) then [tokens[0]] else []) + UserKinds(tokens[1..])
  }

  /** The names referenced by a declaration body. */
  function ReferencedNames(body: string): seq<string> {
    UserKinds(TrimAll(SplitRuns(body)))
  }

  /** One line of the namespace block. */
  function KindLine(name: string): string {
    "    export const " + name + " = SpriteKind.create()"
  }

  function KindLines(names: seq<string>): seq<string> {
    if |names| == 0 then [] else [KindLine(names[0])] + KindLines(names[1..])
  }

  /** The replacement text: the `namespace SpriteKind` block, on lines of its own. */
  function Namespace(names: seq<string>): string {
    "\n" + NamespaceOpen + "\n" + Join(KindLines(names), "\n") + "\n" + "}" + "\n"
  }

  const NamespaceOpen := "namespace SpriteKind {"

  /** The body of the declaration matched at `i`. */
  function BodyAt(s: string, i: nat): string
    requires i <= |s| && MatchAt(s, i).Some?
  {
    s[MatchAt(s, i).value.0..MatchAt(s, i).value.1 - 1]
  }

  /**
   * `patchArcadeSnippets(input)` for the target `targetId`: unchanged off the arcade targets or
   * without a declaration; otherwise every declaration is replaced by the namespace block of the
   * first declaration's names, or deleted when it has none.
   */
  function PatchArcadeSnippets(targetId: string, input: string): (r: string)
    ensures !IsArcadeTarget(targetId) ==> r == input
  {
    if !IsArcadeTarget(targetId) then input
    else
      var i := FirstMatch(input, 0);
      if i == |input| then input
      else
        ReplaceAll(input, Replacement(ReferencedNames(BodyAt(input, i))))
  }

  /** What a declaration is replaced by: the namespace block of its names, or nothing when there are none. */
  function Replacement(names: seq<string>): string {
    if |names| > 0 then Namespace(names) else ""
  }

  /** On an arcade target with a declaration, the patch is one `replace` of every declaration. */
  lemma {:induction false} PatchIsReplace(targetId: string, input: string)
    requires IsArcadeTarget(targetId) && FirstMatch(input, 0) < |input|
    ensures PatchArcadeSnippets(targetId, input)
      == ReplaceAll(input, Replacement(ReferencedNames(BodyAt(input, FirstMatch(input, 0)))))
  {
  }

  /** The run skipped by `SkipWhite` is white space and is followed by a non-white character or the end. */
  lemma {:induction false} SkipWhiteSpec(s: string, i: nat)
    requires i <= |s|
    ensures AllWhite(s[i..SkipWhite(s, i)])
    ensures SkipWhite(s, i) < |s| ==> !IsWhite(s[SkipWhite(s, i)])
    decreases |s| - i
  {
    if i < |s| && IsWhite(s[i]) {
      SkipWhiteSpec(s, i + 1);
      assert s[i..SkipWhite(s, i)] == [s[i]] + s[i + 1..SkipWhite(s, i)];
    }
  }

  /** `FindClose` finds the first `}`. */
  lemma {:induction false} FindCloseSpec(s: string, i: nat)
    requires i <= |s|
    ensures '}' !in s[i..FindClose(s, i)]
    ensures FindClose(s, i) < |s| ==> s[FindClose(s, i)] == '}'
    decreases |s| - i
  {
    if i < |s| && s[i] != '}' {
      FindCloseSpec(s, i + 1);
      assert s[i..FindClose(s, i)] == [s[i]] + s[i + 1..FindClose(s, i)];
    }
  }

  /**
   * The text at `i` has the shape of the pattern: `enum` at `i`, white space up to `j`, `SpriteKind`
   * at `j`, white space up to `k`, `{` at `k`, a non-empty body without `}`, and `}` at `c`.
   */
  predicate DeclShape(s: string, i: nat, j: nat, k: nat, c: nat) {
    i + 4 < j && j + 10 <= k && k + 1 < c < |s|
    && HasAt(s, i, "enum") && AllWhite(s[i + 4..j]) && HasAt(s, j, "SpriteKind")
    && AllWhite(s[j + 10..k]) && s[k] == '{' && '}' !in s[k + 1..c] && s[c] == '}'
  }

  /** No text between `from` and `to` starts with the shape of the pattern. */
  ghost predicate NoDeclarationIn(s: string, from: nat, to: nat) {
    forall p: nat, j: nat, k: nat, c: nat :: from <= p < to ==> !DeclShape(s, p, j, k, c)
  }

  /** A match has the shape of the pattern; the body runs from after `{` up to the closing `}`. */
  lemma {:induction false} MatchShape(s: string, i: nat)
    requires i <= |s| && MatchAt(s, i).Some?
    ensures var j := SkipWhite(s, i + 4); var k := SkipWhite(s, j + 10); var c := FindClose(s, k + 1);
      DeclShape(s, i, j, k, c) && MatchAt(s, i).value == (k + 1, c + 1)
  {
    var j := SkipWhite(s, i + 4);
    var k := SkipWhite(s, j + 10);
    SkipWhiteSpec(s, i + 4);
    SkipWhiteSpec(s, j + 10);
    FindCloseSpec(s, k + 1);
  }

  /**
   * Every occurrence of the shape is matched, with the same body and end: the white runs cannot
   * stop earlier, since `S` and `{` are not white space, and the body ends at its first `}`.
   */
  lemma {:induction false} ShapeMatches(s: string, i: nat, j: nat, k: nat, c: nat)
    requires DeclShape(s, i, j, k, c)
    ensures MatchAt(s, i) == Some((k + 1, c + 1))
  {
    assert s[j] == s[j..j + 10][0];
    SkipWhiteTo(s, i + 4, j);
    SkipWhiteTo(s, j + 10, k);
    FindCloseTo(s, k + 1, c);
  }

  /** A white run ending before a non-white character is what `SkipWhite` skips. */
  lemma {:induction false} SkipWhiteTo(s: string, a: nat, j: nat)
    requires a <= j < |s| && AllWhite(s[a..j]) && !IsWhite(s[j])
    ensures SkipWhite(s, a) == j
    decreases j - a
  {
    if a < j {
      assert IsWhite(s[a..j][0]);
      assert s[a + 1..j] == s[a..j][1..];
      SkipWhiteTo(s, a + 1, j);
    }
  }

  /** The first `}` at or after `a` is what `FindClose` finds. */
  lemma {:induction false} FindCloseTo(s: string, a: nat, c: nat)
    requires a <= c < |s| && '}' !in s[a..c] && s[c] == '}'
    ensures FindClose(s, a) == c
    decreases c - a
  {
    if a < c {
      assert s[a] == s[a..c][0];
      assert s[a + 1..c] == s[a..c][1..];
      FindCloseTo(s, a + 1, c);
    }
  }

  /** Deleting every match from index `from` on keeps the rest of the text, in order. */
  lemma {:induction false} DeleteKeepsRest(s: string, from: nat)
    requires from <= |s|
    ensures IsSubsequence(ReplaceFrom(s, from, ""), s[from..])
    ensures |ReplaceFrom(s, from, "")| <= |s| - from
    decreases |s| - from
  {
    var i := FirstMatch(s, from);
    if i == |s| {
      SubsequenceSelf(s[from..]);
    } else {
      var e := MatchAt(s, i).value.1;
      ReplaceFromStep(s, from, "", i, e - 1);
      DeleteKeepsRest(s, e);
      DropMiddle(s, from, i, e, "", ReplaceFrom(s, e, ""), ReplaceFrom(s, from, ""));
    }
  }

  /** One step of `ReplaceFrom`: the first match from `from` on is at `i` and its `}` is at `c`. */
  lemma {:induction false} ReplaceFromStep(s: string, from: nat, rep: string, i: nat, c: nat)
    requires from <= |s| && FirstMatch(s, from) == i < |s| && MatchAt(s, i).value.1 == c + 1
    ensures ReplaceFrom(s, from, rep) == s[from..i] + rep + ReplaceFrom(s, c + 1, rep)
  {
  }

  /** A match begins at `p` exactly when the shape of the pattern does. */
  lemma {:induction false} MatchIffShape(s: string, p: nat)
    requires p <= |s|
    ensures MatchAt(s, p).Some? <==> exists j: nat, k: nat, c: nat :: DeclShape(s, p, j, k, c)
  {
    if MatchAt(s, p).Some? {
      MatchShape(s, p);
    }
    if exists j: nat, k: nat, c: nat :: DeclShape(s, p, j, k, c) {
      var j: nat, k: nat, c: nat :| DeclShape(s, p, j, k, c);
      ShapeMatches(s, p, j, k, c);
    }
  }

  /** Where no shape begins between `from` and `i`, no match does. */
  lemma {:induction false} NoMatchBetween(s: string, from: nat, i: nat)
    requires i <= |s|
    requires NoDeclarationIn(s, from, i)
    ensures forall p: nat :: from <= p < i ==> MatchAt(s, p).None?
  {
    forall p: nat | from <= p < i ensures MatchAt(s, p).None? {
      MatchIffShape(s, p);
    }
  }

  /** `FirstMatch` finds the first match: none begins between `from` and the index it gives. */
  lemma {:induction false} FirstMatchMinimal(s: string, from: nat)
    requires from <= |s|
    ensures forall k :: from <= k < FirstMatch(s, from) ==> MatchAt(s, k).None?
    decreases |s| - from
  {
    if from < |s| && MatchAt(s, from).None? {
      var i := FirstMatch(s, from + 1);
      assert FirstMatch(s, from) == i;
      FirstMatchMinimal(s, from + 1);
      assert forall k :: from + 1 <= k < i ==> MatchAt(s, k).None?;
    }
  }

  /** The first declaration shape from `from` on is where the first match is, with the same end. */
  lemma {:induction false} FirstDeclaration(s: string, from: nat, i: nat, j: nat, k: nat, c: nat)
    requires from <= i && DeclShape(s, i, j, k, c)
    requires NoDeclarationIn(s, from, i)
    ensures FirstMatch(s, from) == i && MatchAt(s, i) == Some((k + 1, c + 1))
  {
    ShapeMatches(s, i, j, k, c);
    NoMatchBetween(s, from, i);
    FirstMatchMinimal(s, from);
  }

  /**
   * `replace` with the declaration pattern, from index `from` on: the text before the first
   * declaration is kept, the declaration becomes `rep`, and the search goes on after it.
   */
  lemma {:induction false} ReplaceFromFirst(s: string, from: nat, rep: string, i: nat, j: nat, k: nat, c: nat)
    requires from <= i && DeclShape(s, i, j, k, c)
    requires NoDeclarationIn(s, from, i)
    ensures ReplaceFrom(s, from, rep) == s[from..i] + rep + ReplaceFrom(s, c + 1, rep)
  {
    FirstDeclaration(s, from, i, j, k, c);
    ReplaceFromStep(s, from, rep, i, c);
  }

  /** `replace` with the declaration pattern keeps the text from `from` on when no declaration begins there. */
  lemma {:induction false} ReplaceFromNone(s: string, from: nat, rep: string)
    requires from <= |s|
    requires forall p: nat, j: nat, k: nat, c: nat :: from <= p ==> !DeclShape(s, p, j, k, c)
    ensures ReplaceFrom(s, from, rep) == s[from..]
  {
    NoMatchBetween(s, from, |s|);
  }

  /** Without a declaration anywhere, the patch leaves the text unchanged, on every target. */
  lemma {:induction false} NoDeclarationUnchanged(targetId: string, input: string)
    requires forall p: nat, j: nat, k: nat, c: nat :: !DeclShape(input, p, j, k, c)
    ensures PatchArcadeSnippets(targetId, input) == input
  {
    NoMatchBetween(input, 0, |input|);
  }

  /**
   * On an arcade target, with the first declaration at `i` and its body `input[k + 1..c]`: the text
   * before it is kept, it becomes the namespace block of the body's names, or nothing when there
   * are none, and the rest of the text gets the same replacement.
   */
  lemma {:induction false} PatchReplacesFirst(targetId: string, input: string, i: nat, j: nat, k: nat, c: nat)
    requires IsArcadeTarget(targetId) && DeclShape(input, i, j, k, c)
    requires NoDeclarationIn(input, 0, i)
    ensures var rep := Replacement(ReferencedNames(input[k + 1..c]));
      PatchArcadeSnippets(targetId, input) == input[..i] + rep + ReplaceFrom(input, c + 1, rep)
  {
    FirstDeclaration(input, 0, i, j, k, c);
    assert BodyAt(input, i) == input[k + 1..c];
    var rep := Replacement(ReferencedNames(input[k + 1..c]));
    PatchIsReplace(targetId, input);
    ReplaceFromFirst(input, 0, rep, i, j, k, c);
    assert input[0..i] == input[..i];
  }

  /**
   * When the first declaration names only built-in kinds, the patch keeps the text before it and
   * deletes it and every later declaration.
   */
  lemma {:induction false} PatchDeletesEvery(targetId: string, input: string, i: nat, j: nat, k: nat, c: nat)
    requires IsArcadeTarget(targetId) && DeclShape(input, i, j, k, c)
    requires NoDeclarationIn(input, 0, i)
    requires ReferencedNames(input[k + 1..c]) == []
    ensures PatchArcadeSnippets(targetId, input) == input[..i] + "" + ReplaceFrom(input, c + 1, "")
  {
    PatchReplacesFirst(targetId, input, i, j, k, c);
  }

  /** Keeping the text before `i` and deleting every declaration from `e` on only deletes text. */
  lemma {:induction false} DeletingAfterPrefix(input: string, i: nat, e: nat, out: string)
    requires i < e <= |input| && out == input[..i] + "" + ReplaceFrom(input, e, "")
    ensures IsSubsequence(out, input) && |out| < |input|
  {
    DeleteKeepsRest(input, e);
    DropMiddle(input, 0, i, e, "", ReplaceFrom(input, e, ""), out);
  }

  /** The characters before the first separator are not separators. */
  lemma {:induction false} SeparatorIndexSpec(s: string)
    ensures NoSeparator(s[..SeparatorIndex(s)])
    ensures SeparatorIndex(s) < |s| ==> IsSeparator(s[SeparatorIndex(s)])
    decreases |s|
  {
    if |s| > 0 && !IsSeparator(s[0]) {
      SeparatorIndexSpec(s[1..]);
      assert s[..SeparatorIndex(s)] == [s[0]] + s[1..][..SeparatorIndex(s[1..])];
    }
  }

  /** The run at the start is all separators. */
  lemma {:induction false} SeparatorRunSpec(s: string)
    ensures AllSeparators(s[..SeparatorRun(s)])
    ensures SeparatorRun(s) < |s| ==> !IsSeparator(s[SeparatorRun(s)])
    decreases |s|
  {
    if |s| > 0 && IsSeparator(s[0]) {
      SeparatorRunSpec(s[1..]);
      assert s[..SeparatorRun(s)] == [s[0]] + s[1..][..SeparatorRun(s[1..])];
    }
  }

  /** A separator-free piece followed by a separator or the end: the first separator comes after the piece. */
  lemma {:induction false} SeparatorIndexAt(t: string, u: string)
    requires NoSeparator(t) && (|u| == 0 || IsSeparator(u[0]))
    ensures SeparatorIndex(t + u) == |t|
    decreases |t|
  {
    if |t| == 0 {
      assert t + u == u;
    } else {
      assert (t + u)[0] == t[0];
      assert (t + u)[1..] == t[1..] + u;
      SeparatorIndexAt(t[1..], u);
    }
  }

  /** A run of separators followed by a non-separator or the end: the run is exactly that long. */
  lemma {:induction false} SeparatorRunAt(r: string, u: string)
    requires AllSeparators(r) && (|u| == 0 || !IsSeparator(u[0]))
    ensures SeparatorRun(r + u) == |r|
    decreases |r|
  {
    if |r| == 0 {
      assert r + u == u;
    } else {
      assert (r + u)[0] == r[0];
      assert (r + u)[1..] == r[1..] + u;
      SeparatorRunAt(r[1..], u);
    }
  }

  /** `split` cuts the text into tokens and maximal runs of separators that give the text back. */
  lemma {:induction false} SplitRunsTokenization(s: string)
    ensures Tokenization(s, SplitRuns(s), SeparatorRuns(s))
    decreases |s|
  {
    var i := SeparatorIndex(s);
    if i == |s| {
      assert NoSeparator(s) by {
        SeparatorIndexSpec(s);
        assert s[..i] == s;
      }
    } else {
      var n := SeparatorRun(s[i..]);
      SplitRunsTokenization(s[i + n..]);
      SplitRunsStep(s);
    }
  }

  /** One step of the split: the first token and run, in front of the tokenization of the rest. */
  lemma {:induction false} SplitRunsStep(s: string)
    requires SeparatorIndex(s) < |s|
    requires var i := SeparatorIndex(s); var rest := s[i + SeparatorRun(s[i..])..];
      Tokenization(rest, SplitRuns(rest), SeparatorRuns(rest))
    ensures Tokenization(s, SplitRuns(s), SeparatorRuns(s))
  {
    var i := SeparatorIndex(s);
    var n := SeparatorRun(s[i..]);
    var rest := s[i + n..];
    var tr, rr := SplitRuns(rest), SeparatorRuns(rest);
    FirstPieces(s);
    SplitRunsUnfold(s);
    SeparatorRunsUnfold(s);
    RestFirstToken(s);
    TokenizationCons(s, s[..i], s[i..i + n], rest, tr, rr, SplitRuns(s), SeparatorRuns(s));
  }

  /** The split's first token holds no separator, its first run is a non-empty run of them, and the three pieces make up the text. */
  lemma {:induction false} FirstPieces(s: string)
    requires SeparatorIndex(s) < |s|
    ensures var i := SeparatorIndex(s); var n := SeparatorRun(s[i..]);
      NoSeparator(s[..i]) && |s[i..i + n]| > 0 && AllSeparators(s[i..i + n])
      && s == s[..i] + s[i..i + n] + s[i + n..]
  {
    var i := SeparatorIndex(s);
    var n := SeparatorRun(s[i..]);
    SeparatorIndexSpec(s);
    SeparatorRunSpec(s[i..]);
    assert s[i..][..n] == s[i..i + n];
  }

  /** What follows the first run starts a token, so that token is not empty when more follow. */
  lemma {:induction false} RestFirstToken(s: string)
    requires SeparatorIndex(s) < |s|
    ensures var i := SeparatorIndex(s); var rest := s[i + SeparatorRun(s[i..])..];
      |SplitRuns(rest)| > 1 ==> |SplitRuns(rest)[0]| > 0
  {
    var i := SeparatorIndex(s);
    var n := SeparatorRun(s[i..]);
    SeparatorRunSpec(s[i..]);
    assert s[i + n..] == s[i..][n..];
    StartsToken(s[i..][n..]);
  }

  /** A text that does not start with a separator starts with a non-empty token when more follow. */
  lemma {:induction false} StartsToken(t: string)
    requires |t| == 0 || !IsSeparator(t[0])
    ensures |SplitRuns(t)| > 1 ==> |SplitRuns(t)[0]| > 0
  {
    if |SplitRuns(t)| > 1 {
      FirstTokenNonEmpty(t);
    }
  }

  /** `SplitRuns` takes the first token off the text. */
  lemma {:induction false} SplitRunsUnfold(s: string)
    requires SeparatorIndex(s) < |s|
    ensures var i := SeparatorIndex(s); var n := SeparatorRun(s[i..]);
      SplitRuns(s) == [s[..i]] + SplitRuns(s[i + n..])
  {
    var i := SeparatorIndex(s);
    var n := SeparatorRun(s[i..]);
    var r := SplitRuns(s[i + n..]);
    assert SplitRuns(s) == [s[..i]] + r;
  }

  /** `SeparatorRuns` takes the first run off the text. */
  lemma {:induction false} SeparatorRunsUnfold(s: string)
    requires SeparatorIndex(s) < |s|
    ensures var i := SeparatorIndex(s); var n := SeparatorRun(s[i..]);
      SeparatorRuns(s) == [s[i..i + n]] + SeparatorRuns(s[i + n..])
  {
  }

  /** A token and a run put in front of a tokenization give a tokenization of the longer text. */
  lemma {:induction false} TokenizationCons(s: string, t0: string, r0: string, rest: string, tr: seq<string>, rr: seq<string>,
                         tokens: seq<string>, runs: seq<string>)
    requires NoSeparator(t0) && |r0| > 0 && AllSeparators(r0)
    requires Tokenization(rest, tr, rr) && (|tr| > 1 ==> |tr[0]| > 0)
    requires s == t0 + r0 + rest && tokens == [t0] + tr && runs == [r0] + rr
    ensures Tokenization(s, tokens, runs)
  {
    assert tokens[1..] == tr && runs[1..] == rr;
    forall k | 0 <= k < |tokens| ensures NoSeparator(tokens[k]) {
      if k > 0 {
        assert tokens[k] == tr[k - 1];
      }
    }
    forall r | 0 <= r < |runs| ensures |runs[r]| > 0 && AllSeparators(runs[r]) {
      if r > 0 {
        assert runs[r] == rr[r - 1];
      }
    }
    forall k | 0 < k < |tokens| - 1 ensures |tokens[k]| > 0 {
      assert tokens[k] == tr[k - 1];
    }
  }

  /** A text that starts with a non-separator and holds a separator starts with a non-empty token. */
  lemma {:induction false} FirstTokenNonEmpty(s: string)
    requires |SplitRuns(s)| > 1
    ensures |s| > 0 && (IsSeparator(s[0]) || |SplitRuns(s)[0]| > 0)
  {
  }

  /** The only way to cut a text into tokens and maximal separator runs is the one `split` takes. */
  lemma {:induction false} TokenizationUnique(s: string, tokens: seq<string>, runs: seq<string>)
    requires Tokenization(s, tokens, runs)
    ensures tokens == SplitRuns(s) && runs == SeparatorRuns(s)
    decreases |runs|
  {
    if |runs| == 0 {
      assert s + "" == s;
      SeparatorIndexAt(s, "");
    } else {
      var rest := Rejoin(tokens[1..], runs[1..]);
      TokenizationTail(s, tokens, runs);
      TokenizationUnique(rest, tokens[1..], runs[1..]);
      SplitRunsCons(s, tokens[0], runs[0], rest);
      assert tokens == [tokens[0]] + tokens[1..] && runs == [runs[0]] + runs[1..];
    }
  }

  /** Without its first token and run, a tokenization is one of the rest, which starts a token. */
  lemma {:induction false} TokenizationTail(s: string, tokens: seq<string>, runs: seq<string>)
    requires Tokenization(s, tokens, runs) && |runs| > 0
    ensures var rest := Rejoin(tokens[1..], runs[1..]);
      Tokenization(rest, tokens[1..], runs[1..]) && (|rest| == 0 || !IsSeparator(rest[0]))
      && s == tokens[0] + runs[0] + rest
  {
    var rest := Rejoin(tokens[1..], runs[1..]);
    forall k | 0 < k < |tokens[1..]| - 1 ensures |tokens[1..][k]| > 0 {
      assert tokens[1..][k] == tokens[k + 1];
    }
    if |runs| > 1 {
      assert rest == tokens[1] + runs[1] + Rejoin(tokens[2..], runs[2..]) by {
        assert tokens[1..][1..] == tokens[2..] && runs[1..][1..] == runs[2..];
      }
    }
  }

  /** `SplitRuns` and `SeparatorRuns` on a token, a run, and a text that does not start with a separator. */
  lemma {:induction false} SplitRunsCons(s: string, t0: string, r0: string, rest: string)
    requires NoSeparator(t0) && |r0| > 0 && AllSeparators(r0) && (|rest| == 0 || !IsSeparator(rest[0]))
    requires s == t0 + r0 + rest
    ensures SplitRuns(s) == [t0] + SplitRuns(rest) && SeparatorRuns(s) == [r0] + SeparatorRuns(rest)
  {
    assert s == t0 + (r0 + rest);
    SeparatorIndexAt(t0, r0 + rest);
    assert s[|t0|..] == r0 + rest;
    SeparatorRunAt(r0, rest);
    assert s[..|t0|] == t0 && s[|t0|..|t0| + |r0|] == r0 && s[|t0| + |r0|..] == rest;
  }

  /** The last token and run, split off the end of the rejoined text. */
  lemma {:induction false} RejoinLast(tokens: seq<string>, runs: seq<string>)
    requires |tokens| == |runs| + 1 && |runs| > 0
    ensures Rejoin(tokens, runs)
      == Rejoin(tokens[..|tokens| - 1], runs[..|runs| - 1]) + runs[|runs| - 1] + tokens[|tokens| - 1]
    decreases |runs|
  {
    if |runs| > 1 {
      RejoinLast(tokens[1..], runs[1..]);
      assert tokens[1..][..|tokens| - 2] == tokens[..|tokens| - 1][1..];
      assert runs[1..][..|runs| - 2] == runs[..|runs| - 1][1..];
    }
  }

  /** The first (last) token is empty exactly when the text is empty or starts (ends) with a separator. */
  lemma {:induction false} TokenizationEnds(s: string, tokens: seq<string>, runs: seq<string>)
    requires Tokenization(s, tokens, runs)
    ensures |tokens[0]| == 0 <==> |s| == 0 || IsSeparator(s[0])
    ensures |tokens[|tokens| - 1]| == 0 <==> |s| == 0 || IsSeparator(s[|s| - 1])
  {
    var t0, tl := tokens[0], tokens[|tokens| - 1];
    assert NoSeparator(t0) && NoSeparator(tl);
    if |runs| > 0 {
      var r0, rl := runs[0], runs[|runs| - 1];
      assert |r0| > 0 && AllSeparators(r0) && |rl| > 0 && AllSeparators(rl);
      var after := Rejoin(tokens[1..], runs[1..]);
      assert s == t0 + (r0 + after);
      if |t0| > 0 {
        assert s[0] == t0[0];
      } else {
        assert s[0] == r0[0];
      }
      RejoinLast(tokens, runs);
      var before := Rejoin(tokens[..|tokens| - 1], runs[..|runs| - 1]);
      assert s == (before + rl) + tl;
      if |tl| > 0 {
        assert s[|s| - 1] == tl[|tl| - 1];
      } else {
        assert s[|s| - 1] == rl[|rl| - 1];
      }
    } else if |s| > 0 {
      assert s[0] == t0[0] && s[|s| - 1] == tl[|tl| - 1];
    }
  }

  /**
   * The first piece of `split` is empty exactly when the body is empty or starts with a separator,
   * and the last piece exactly when it is empty or ends with one.
   */
  lemma {:induction false} SplitRunsEnds(s: string)
    ensures |SplitRuns(s)[0]| == 0 <==> |s| == 0 || IsSeparator(s[0])
    ensures |SplitRuns(s)[|SplitRuns(s)| - 1]| == 0 <==> |s| == 0 || IsSeparator(s[|s| - 1])
  {
    SplitRunsTokenization(s);
    TokenizationEnds(s, SplitRuns(s), SeparatorRuns(s));
  }

  /** A token without white space is its own trim. */
  lemma {:induction false} TrimNoWhite(t: string)
    requires forall j :: 0 <= j < |t| ==> !IsWhite(t[j])
    ensures Trim(t) == t
  {
    assert TrimStart(t) == t;
    assert TrimEnd(t) == t;
  }

  /** Trimming changes no token, since no token holds white space. */
  lemma {:induction false} TrimAllUnchanged(tokens: seq<string>)
    requires NoSeparators(tokens)
    ensures TrimAll(tokens) == tokens
  {
    forall k | 0 <= k < |tokens| ensures TrimAll(tokens)[k] == tokens[k] {
      var t := tokens[k];
      assert NoSeparator(t);
      TrimNoWhite(t);
    }
  }

  /**
   * The kept tokens are exactly the user-defined ones, in their order among the tokens, each as
   * many times as it occurs among them.
   */
  lemma {:induction false} UserKindsSpec(tokens: seq<string>)
    ensures IsSubsequence(UserKinds(tokens), tokens)
    ensures forall n :: n in UserKinds(tokens) <==> n in tokens && IsUserKind(n)
    ensures forall n :: multiset(UserKinds(tokens))[n] == if IsUserKind(n) then multiset(tokens)[n] else 0
    decreases |tokens|
  {
    if |tokens| > 0 {
      var n := tokens[0];
      var rest := tokens[1..];
      UserKindsSpec(rest);
      var names := UserKinds(rest);
      assert tokens == [n] + rest;
      assert multiset(tokens) == multiset{n} + multiset(rest);
      if IsUserKind(n) {
        assert UserKinds(tokens) == [n] + names;
        assert multiset(UserKinds(tokens)) == multiset{n} + multiset(names);
        assert ([n] + names)[1..] == names;
      } else {
        assert UserKinds(tokens) == names;
        SubsequenceOfLonger(names, tokens, 1);
      }
    }
  }

  /** A subsequence of separator-free tokens is separator-free. */
  lemma {:induction false} SubsequenceNoSeparators(a: seq<string>, b: seq<string>)
    requires IsSubsequence(a, b) && NoSeparators(b)
    ensures NoSeparators(a)
    decreases |b|
  {
    if |a| > 0 {
      assert NoSeparators(b[1..]) by {
        forall k | 0 <= k < |b| - 1 ensures NoSeparator(b[1..][k]) {
          assert b[1..][k] == b[k + 1];
        }
      }
      if a[0] == b[0] {
        SubsequenceNoSeparators(a[1..], b[1..]);
        forall k | 0 <= k < |a| ensures NoSeparator(a[k]) {
          if k > 0 {
            assert a[k] == a[1..][k - 1];
          }
        }
      } else {
        SubsequenceNoSeparators(a, b[1..]);
      }
    }
  }

  /**
   * The referenced names are exactly the pieces of the body that hold an ASCII letter and are
   * not built-in kinds, in their order in the body and each as often as it occurs there; none
   * holds white space or a comma, so trimming leaves every piece as it is.
   */
  lemma {:induction false} ReferencedNamesSpec(body: string)
    ensures IsSubsequence(ReferencedNames(body), SplitRuns(body))
    ensures forall n :: n in ReferencedNames(body) <==> n in SplitRuns(body) && IsUserKind(n)
    ensures forall n ::
      multiset(ReferencedNames(body))[n] == if IsUserKind(n) then multiset(SplitRuns(body))[n] else 0
    ensures NoSeparators(ReferencedNames(body))
  {
    var tokens := SplitRuns(body);
    SplitRunsTokenization(body);
    TrimAllUnchanged(tokens);
    UserKindsSpec(tokens);
    SubsequenceNoSeparators(UserKinds(tokens), tokens);
  }

  /** Joining two non-empty lists of lines. */
  lemma {:induction false} JoinAppend(a: seq<string>, b: seq<string>, sep: string)
    requires |a| >= 1 && |b| >= 1
    ensures Join(a + b, sep) == Join(a, sep) + sep + Join(b, sep)
    decreases |a|
  {
    if |a| == 1 {
      assert (a + b)[1..] == b;
    } else {
      assert (a + b)[1..] == a[1..] + b;
      JoinAppend(a[1..], b, sep);
    }
  }

  lemma {:induction false} KindLinesShape(names: seq<string>)
    requires forall k :: 0 <= k < |names| ==> '\n' !in names[k]
    ensures |KindLines(names)| == |names|
    ensures forall k :: 0 <= k < |names| ==> KindLines(names)[k] == KindLine(names[k]) && '\n' !in KindLines(names)[k]
    decreases |names|
  {
    if |names| > 0 {
      KindLinesShape(names[1..]);
      assert '\n' !in KindLine(names[0]);
    }
  }

  /** Lines between an opening and a closing line, with an empty line before and after, joined by `nl`. */
  lemma {:induction false} JoinFramed(open: string, body: seq<string>, close: string, nl: string)
    requires |body| > 0
    ensures Join(["", open] + body + [close, ""], nl) == nl + open + nl + Join(body, nl) + nl + close + nl
  {
    var jb := Join(body, nl);
    JoinAppend(["", open], body, nl);
    JoinAppend(["", open] + body, [close, ""], nl);
    JoinPair("", open, nl);
    JoinPair(close, "", nl);
    Regroup(nl, open, jb, close);
  }

  lemma {:induction false} JoinPair(a: string, b: string, sep: string)
    ensures Join([a, b], sep) == a + sep + b
  {
    assert [a, b][1..] == [b];
  }

  lemma {:induction false} Regroup(nl: string, open: string, body: string, close: string)
    ensures ("" + nl + open) + nl + body + nl + (close + nl + "") == nl + open + nl + body + nl + close + nl
  {
    assert "" + nl == nl;
    assert close + nl + "" == close + nl;
  }

  /** The block is its lines joined by line breaks. */
  lemma {:induction false} NamespaceIsJoin(names: seq<string>)
    requires |names| > 0
    ensures Namespace(names) == Join(["", NamespaceOpen] + KindLines(names) + ["}", ""], "\n")
  {
    JoinFramed(NamespaceOpen, KindLines(names), "}", "\n");
  }

  /** Splitting a framed join gives its lines back when no line holds the separator. */
  lemma {:induction false} SplitFramed(open: string, body: seq<string>, close: string, c: char)
    requires c !in open && c !in close
    requires forall k :: 0 <= k < |body| ==> c !in body[k]
    ensures Split(Join(["", open] + body + [close, ""], [c]), c) == ["", open] + body + [close, ""]
  {
    var all := ["", open] + body + [close, ""];
    forall k | 0 <= k < |all| ensures c !in all[k] {
      if 2 <= k < 2 + |body| {
        assert all[k] == body[k - 2];
      }
    }
    SplitJoin(all, c);
  }

  /** The lines of the block, joined and split again at line breaks, come back unchanged. */
  lemma {:induction false} BlockLinesRoundTrip(names: seq<string>)
    requires |names| > 0
    requires forall k :: 0 <= k < |names| ==> '\n' !in names[k]
    ensures Split(Join(["", NamespaceOpen] + KindLines(names) + ["}", ""], ['\n']), '\n')
      == ["", NamespaceOpen] + KindLines(names) + ["}", ""]
  {
    KindLinesOneLine(names);
    FrameOneLine();
    SplitFramed(NamespaceOpen, KindLines(names), "}", '\n');
  }

  lemma {:induction false} KindLinesOneLine(names: seq<string>)
    requires forall k :: 0 <= k < |names| ==> '\n' !in names[k]
    ensures forall k :: 0 <= k < |KindLines(names)| ==> '\n' !in KindLines(names)[k]
  {
    KindLinesShape(names);
  }

  lemma {:induction false} FrameOneLine()
    ensures '\n' !in NamespaceOpen && '\n' !in "}"
  {
  }

  /**
   * For names without line breaks, the block splits into an empty line, the `namespace` line,
   * one `export const` line per name in order, the closing brace, and an empty line.
   */
  lemma {:induction false} NamespaceLines(names: seq<string>)
    requires |names| > 0
    requires forall k :: 0 <= k < |names| ==> '\n' !in names[k]
    ensures Split(Namespace(names), '\n') == ["", NamespaceOpen] + KindLines(names) + ["}", ""]
  {
    BlockLinesRoundTrip(names);
    NamespaceIsJoin(names);
  }
}
