/** What the step segmenter promises, proved about `StepsOf`, the function `ParseTutorialSteps` computes. */
module StepProperties {
  import opened Wrappers
  import opened Strings
  import opened Headings
  import opened Hints
  import opened Sequences
  import opened Steps

  /** There are no level-`n` heading lines exactly when no line is a level-`n` heading. */
  lemma {:induction false} HeadingLinesEmpty(lines: seq<string>, n: nat)
    ensures HeadingLines(lines, n) == [] <==> forall k :: 0 <= k < |lines| ==> !IsHeading(lines[k], n)
    decreases |lines|
  {
    if |lines| > 0 {
      var init := lines[..|lines| - 1];
      HeadingLinesEmpty(init, n);
      assert forall k :: 0 <= k < |init| ==> init[k] == lines[k];
    }
  }

  /** The `##` convention is used exactly when the document has a `##` heading; otherwise the legacy `###` one. */
  lemma LevelChoice(lines: seq<string>)
    ensures ChosenLevel(lines) == 2 <==> exists k :: 0 <= k < |lines| && IsHeading(lines[k], 2)
    ensures ChosenLevel(lines) == 3 <==> forall k :: 0 <= k < |lines| ==> !IsHeading(lines[k], 2)
  {
    HeadingLinesEmpty(lines, 2);
  }

  /** The first fragment, the preamble, is every line before the first heading of the level. */
  lemma {:induction false} PreambleBeforeFirstHeading(lines: seq<string>, n: nat)
    ensures Fragments(lines, n)[0] == lines[..FirstHeading(lines, n)]
    decreases |lines|
  {
    if |lines| > 0 {
      var init := lines[..|lines| - 1];
      var last := lines[|lines| - 1];
      PreambleBeforeFirstHeading(init, n);
      HeadingLinesEmpty(init, n);
      var f := FirstHeading(init, n);
      assert forall k :: 0 <= k < |init| ==> init[k] == lines[k];
      if f < |init| {
        assert FirstHeading(lines, n) == f;
        assert lines[..f] == init[..f];
      } else if IsHeading(last, n) {
        assert FirstHeading(lines, n) == |init|;
      } else {
        assert FirstHeading(lines, n) == |lines|;
      }
    }
  }

  /** The segmenter fails exactly on a document that starts with the "# Not found" placeholder title. */
  lemma NotFoundExactly(doc: string)
    ensures StepsOf(doc).None? <==> StartsWith(doc, NotFoundTitle)
  {
    var lines := Lines(doc);
    var n := ChosenLevel(lines);
    PreambleBeforeFirstHeading(lines, n);
    StartsWithFirstLine(doc, NotFoundTitle);
    if StartsWith(lines[0], NotFoundTitle) {
      assert lines[0][1] == ' ';
      assert FirstHeading(lines, n) > 0;
    }
  }

  /** Adding a line to the last fragment adds it at the end of the reassembled document. */
  lemma {:induction false} InterleaveExtendLast(fragments: seq<seq<string>>, headings: seq<string>, line: string)
    requires |fragments| == |headings| + 1
    ensures Interleave(fragments[..|fragments| - 1] + [fragments[|fragments| - 1] + [line]], headings)
      == Interleave(fragments, headings) + [line]
  {
    var extended := fragments[..|fragments| - 1] + [fragments[|fragments| - 1] + [line]];
    if |headings| > 0 {
      assert extended[..|extended| - 1] == fragments[..|fragments| - 1];
    }
  }

  /** Fragments and heading lines partition the document: put back in order they give every line, and no fragment holds a heading. */
  lemma {:induction false} FragmentsPartition(lines: seq<string>, n: nat)
    ensures Interleave(Fragments(lines, n), HeadingLines(lines, n)) == lines
    ensures forall i, k :: 0 <= i < |Fragments(lines, n)| && 0 <= k < |Fragments(lines, n)[i]| ==>
      !IsHeading(Fragments(lines, n)[i][k], n)
    decreases |lines|
  {
    if |lines| > 0 {
      var init := lines[..|lines| - 1];
      var last := lines[|lines| - 1];
      FragmentsPartition(init, n);
      var r := Fragments(init, n);
      var h := HeadingLines(init, n);
      if IsHeading(last, n) {
        var r' := r + [[]];
        var h' := h + [last];
        assert r'[..|r'| - 1] == r && h'[..|h'| - 1] == h;
        assert Interleave(r', h') == Interleave(r, h) + [last] + [];
        assert Fragments(lines, n) == r' && HeadingLines(lines, n) == h';
      } else {
        InterleaveExtendLast(r, h, last);
        assert HeadingLines(lines, n) == h;
        assert Fragments(lines, n) == r[..|r| - 1] + [r[|r| - 1] + [last]];
      }
      assert init + [last] == lines;
    }
  }

  /** A document with no `##` and no `###` heading yields no steps, not a failure, unless it is the placeholder. */
  lemma NoHeadingsNoSteps(doc: string)
    requires forall k :: 0 <= k < |Lines(doc)| ==> !IsHeading(Lines(doc)[k], 2) && !IsHeading(Lines(doc)[k], 3)
    requires !StartsWith(doc, NotFoundTitle)
    ensures StepsOf(doc) == Some([])
  {
    var lines := Lines(doc);
    NotFoundExactly(doc);
    LevelChoice(lines);
    HeadingLinesEmpty(lines, 3);
  }

  /** Step `i` of the list is record `i` of the flag pass completed from fragment `i + 1`. */
  lemma StepListAt(lines: seq<string>, n: nat, i: nat)
    requires i < |HeadingLines(lines, n)|
    ensures StepList(lines, n)[i]
      == WithContent(InitialInfo(HeadingText(HeadingLines(lines, n)[i], n)), Fragments(lines, n)[i + 1])
  {
    var initial := InitialInfos(lines, n);
    var fragments := Fragments(lines, n);
    assert initial[i] == InitialInfo(HeadingText(HeadingLines(lines, n)[i], n));
    assert fragments[1..][i] == fragments[i + 1];
  }

  /** One step per heading of the chosen level, in order: step `i` takes its flags from heading `i` and its content from the fragment after it. */
  lemma StepsFromHeadings(doc: string)
    requires StepsOf(doc).Some?
    ensures var lines := Lines(doc);
      var n := ChosenLevel(lines);
      var steps := StepsOf(doc).value;
      var headings := HeadingLines(lines, n);
      |steps| == |headings|
      && forall i :: 0 <= i < |steps| ==>
        var text := HeadingText(headings[i], n);
        && (steps[i].fullscreen <==> Contains(text, "@fullscreen") || Contains(text, "@unplugged"))
        && (steps[i].unplugged <==> Contains(text, "@unplugged"))
        && (steps[i].tutorialCompleted <==> Contains(text, "@tutorialCompleted"))
        && steps[i].contentMd == Trim(Join(Fragments(lines, n)[i + 1], "\n"))
  {
    var lines := Lines(doc);
    var n := ChosenLevel(lines);
    var steps := StepList(lines, n);
    var headings := HeadingLines(lines, n);
    assert StepsOf(doc).value == steps;
    forall i | 0 <= i < |steps|
      ensures var text := HeadingText(headings[i], n);
        && (steps[i].fullscreen <==> Contains(text, "@fullscreen") || Contains(text, "@unplugged"))
        && (steps[i].unplugged <==> Contains(text, "@unplugged"))
        && (steps[i].tutorialCompleted <==> Contains(text, "@tutorialCompleted"))
        && steps[i].contentMd == Trim(Join(Fragments(lines, n)[i + 1], "\n"))
    {
      StepListAt(lines, n, i);
      ContentKeepsFlags(InitialInfo(HeadingText(headings[i], n)), Fragments(lines, n)[i + 1]);
    }
  }

  /** Completing a step keeps its flags and stores its trimmed fragment as the content. */
  lemma ContentKeepsFlags(flags: StepInfo, fragment: seq<string>)
    ensures var step := WithContent(flags, fragment);
      && step.contentMd == Trim(Join(fragment, "\n"))
      && (step.fullscreen, step.unplugged, step.tutorialCompleted) == (flags.fullscreen, flags.unplugged, flags.tutorialCompleted)
  {
  }

  /** The first line of a text is a prefix of it. */
  lemma FirstLineIsPrefix(s: string)
    ensures StartsWith(s, FirstLine(s)) && '\n' !in FirstLine(s)
  {
    var i := IndexOf(s, '\n');
    assert FirstLine(s) == s[..i];
  }

  /** Without a hint the header is the content's first line, and there is no block solution. */
  lemma StepWithoutHint(flags: StepInfo, fragment: seq<string>)
    requires HintSplit(Trim(Join(fragment, "\n"))).None?
    ensures var step := WithContent(flags, fragment);
      && step.headerContentMd == FirstLine(step.contentMd)
      && StartsWith(step.contentMd, step.headerContentMd) && '\n' !in step.headerContentMd
      && step.blockSolution.None? && !step.hasHint
  {
    FirstLineIsPrefix(Trim(Join(fragment, "\n")));
  }

  /**
   * With a hint the content is the header, white space, then the hint; the block solution is the
   * hint with its hidden snippets deleted, and `hasHint` means it is longer than one character.
   */
  lemma StepWithHint(flags: StepInfo, fragment: seq<string>, header: string, hint: string)
    requires HintSplit(Trim(Join(fragment, "\n"))) == Some((header, hint))
    ensures var step := WithContent(flags, fragment);
      var content := step.contentMd;
      && step.headerContentMd == header
      && content == header + content[|header|..|content| - |hint|] + hint
      && AllWhite(content[|header|..|content| - |hint|])
      && step.blockSolution == Some(StripHidden(hint))
      && IsSubsequence(StripHidden(hint), hint)
      && (step.hasHint <==> |StripHidden(hint)| > 1)
  {
    var content := Trim(Join(fragment, "\n"));
    HintSplitShape(content, header, hint);
    StripHiddenDeletes(hint);
    var step := WithContent(flags, fragment);
    assert step.contentMd == content && step.headerContentMd == header;
    assert step.blockSolution == Some(StripHidden(hint));
  }

  /** In every step the header starts the content, and `hasHint` implies a block solution of more than one character. */
  lemma HeaderStartsContent(flags: StepInfo, fragment: seq<string>)
    ensures var step := WithContent(flags, fragment);
      && StartsWith(step.contentMd, step.headerContentMd)
      && (step.hasHint ==> step.blockSolution.Some? && |step.blockSolution.value| > 1)
  {
    var content := Trim(Join(fragment, "\n"));
    var hintText := HintSplit(content);
    if hintText.None? {
      StepWithoutHint(flags, fragment);
    } else {
      var (header, hint) := hintText.value;
      assert content[..|header|] == header;
    }
  }

  /** An unplugged step is always a full-screen step. */
  lemma UnpluggedIsFullscreen(doc: string)
    requires StepsOf(doc).Some?
    ensures forall i :: 0 <= i < |StepsOf(doc).value| ==> StepsOf(doc).value[i].unplugged ==> StepsOf(doc).value[i].fullscreen
  {
    StepsFromHeadings(doc);
  }

  /**
   * The record pushed for a heading: `fullscreen` iff `@fullscreen` or `@unplugged` occurs in its
   * text, `unplugged` iff `@unplugged` does, `tutorialCompleted` iff `@tutorialCompleted` does;
   * the content fields start out empty, without a solution or a hint.
   */
  lemma {:induction false} InitialFlags(text: string)
    ensures InitialInfo(text).fullscreen
      <==> (exists i :: OccursAt(text, "@fullscreen", i)) || (exists i :: OccursAt(text, "@unplugged", i))
    ensures InitialInfo(text).unplugged <==> exists i :: OccursAt(text, "@unplugged", i)
    ensures InitialInfo(text).tutorialCompleted <==> exists i :: OccursAt(text, "@tutorialCompleted", i)
    ensures InitialInfo(text).unplugged ==> InitialInfo(text).fullscreen
    ensures InitialInfo(text).headerContentMd == "" && InitialInfo(text).contentMd == ""
    ensures InitialInfo(text).blockSolution.None? && !InitialInfo(text).hasHint
  {
    ContainsIff(text, "@fullscreen");
    ContainsIff(text, "@unplugged");
    ContainsIff(text, "@tutorialCompleted");
  }
}
