/**
 * The step segmenter, `parseTutorialSteps`: the document is cut at its `##` headings (or,
 * when there are none, at its `###` headings); each heading supplies the flags of one step and
 * the text after it up to the next heading supplies that step's content and hint.
 */
module Steps {
  import opened Wrappers
  import opened Strings
  import opened Headings
  import opened Hints

  /** One tutorial step, as `TutorialStepInfo` has it once the segmenter is done. */
  datatype StepInfo = StepInfo(
    fullscreen: bool,
    unplugged: bool,
    tutorialCompleted: bool,
    headerContentMd: string,
    contentMd: string,
    blockSolution: Option<string>,
    hasHint: bool)

  const NotFoundTitle := "# Not found"

  /** The level-`n` heading lines among `lines`, in document order. */
  function HeadingLines(lines: seq<string>, n: nat): (r: seq<string>)
    ensures forall k :: 0 <= k < |r| ==> IsHeading(r[k], n)
  {
    if |lines| == 0 then []
    else
      var last := lines[|lines| - 1];
      HeadingLines(lines[..|lines| - 1], n) + (if IsHeading(last, n) then [last] else [])
  }

  /** Index of the first level-`n` heading, or `|lines|`. */
  function FirstHeading(lines: seq<string>, n: nat): (i: nat)
    ensures i <= |lines|
    ensures i < |lines| ==> IsHeading(lines[i], n)
    ensures forall k :: 0 <= k < i ==> !IsHeading(lines[k], n)
  {
    if |lines| == 0 || IsHeading(lines[0], n) then 0
    else
      var i := 1 + FirstHeading(lines[1..], n);
      assert forall k :: 1 <= k < i ==> lines[k] == lines[1..][k - 1];
      i
  }

  /**
   * `split(/^#{n}[^#].*$/gm)` on lines: the lines before the first heading, then for each
   * heading the lines after it up to the next heading. One more fragment than headings.
   */
  function Fragments(lines: seq<string>, n: nat): (r: seq<seq<string>>)
    ensures |r| == |HeadingLines(lines, n)| + 1
  {
    if |lines| == 0 then [[]]
    else
      var last := lines[|lines| - 1];
      var r := Fragments(lines[..|lines| - 1], n);
      if IsHeading(last, n) then r + [[]] else r[..|r| - 1] + [r[|r| - 1] + [last]]
  }

  /** Puts the heading lines back between the fragments. */
  function Interleave(fragments: seq<seq<string>>, headings: seq<string>): seq<string>
    requires |fragments| == |headings| + 1
  {
    if |headings| == 0 then fragments[0]
    else
      Interleave(fragments[..|fragments| - 1], headings[..|headings| - 1])
        + [headings[|headings| - 1]] + fragments[|fragments| - 1]
  }

  /** The heading level the segmenter uses: `##` unless that split yields at most one fragment. */
  function ChosenLevel(lines: seq<string>): nat {
    if |Fragments(lines, 2)| <= 1 then 3 else 2
  }

  /** `steps[0].indexOf("# Not found") == 0` for the preamble fragment. */
  predicate IsNotFound(preamble: seq<string>) {
    |preamble| > 0 && StartsWith(preamble[0], NotFoundTitle)
  }

  /** The record pushed for a heading whose `(.*)` group is `text`: only the three flags. */
  function InitialInfo(text: string): StepInfo {
    StepInfo(
      fullscreen := Contains(text, "@fullscreen") || Contains(text, "@unplugged"),
      unplugged := Contains(text, "@unplugged"),
      tutorialCompleted := Contains(text, "@tutorialCompleted"),
      headerContentMd := "", contentMd := "", blockSolution := None, hasHint := false)
  }

  /** The fields the second loop fills in from a step's fragment. */
  function WithContent(info: StepInfo, fragment: seq<string>): StepInfo {
    var content := Trim(Join(fragment, "\n"));
    var hintText := HintSplit(content);
    if hintText.None? then
      info.(headerContentMd := FirstLine(content), contentMd := content, blockSolution := None, hasHint := false)
    else
      var solution := StripHidden(hintText.value.1);
      info.(headerContentMd := hintText.value.0, contentMd := content, blockSolution := Some(solution), hasHint := |solution| > 1)
  }

  /** The segmenter's result: `None` for a "Not found" placeholder, else one step per heading of the chosen level. */
  function StepsOf(doc: string): Option<seq<StepInfo>> {
    var lines := Lines(doc);
    var n := ChosenLevel(lines);
    var fragments := Fragments(lines, n);
    if IsNotFound(fragments[0]) then None else Some(StepList(lines, n))
  }

  /** The flag records of the level-`n` headings, in order. */
  function InitialInfos(lines: seq<string>, n: nat): (r: seq<StepInfo>)
    ensures |r| == |HeadingLines(lines, n)|
  {
    var headings := HeadingLines(lines, n);
    seq(|headings|, i requires 0 <= i < |headings| => InitialInfo(HeadingText(headings[i], n)))
  }

  /** Record `k` of `flags` completed from fragment `k` of `fragments`. */
  function CompleteAll(flags: seq<StepInfo>, fragments: seq<seq<string>>): (r: seq<StepInfo>)
    requires |flags| == |fragments|
    ensures |r| == |flags|
    ensures forall k :: 0 <= k < |r| ==> r[k] == WithContent(flags[k], fragments[k])
  {
    if |flags| == 0 then []
    else [WithContent(flags[0], fragments[0])] + CompleteAll(flags[1..], fragments[1..])
  }

  /** Each flag record completed from the fragment after its heading. */
  function StepList(lines: seq<string>, n: nat): (r: seq<StepInfo>)
    ensures |r| == |HeadingLines(lines, n)|
  {
    CompleteAll(InitialInfos(lines, n), Fragments(lines, n)[1..])
  }

  /** Heading lines of one more line. */
  lemma HeadingLinesSnoc(lines: seq<string>, j: nat, n: nat)
    requires j < |lines|
    ensures HeadingLines(lines[..j + 1], n)
      == HeadingLines(lines[..j], n) + (if IsHeading(lines[j], n) then [lines[j]] else [])
  {
    assert lines[..j + 1][..j] == lines[..j];
  }

  /** One iteration of the loop over the fragments: content, header, hint and `hasHint` of a step. */
  method CompleteStep(flags: StepInfo, fragment: seq<string>) returns (info: StepInfo)
    ensures info == WithContent(flags, fragment)
  {
    var stepContent := Trim(Join(fragment, "\n"));
    var contentLines := Split(stepContent, '\n');
    var headerContentMd := contentLines[0];
    // everything from the first fence or image on is the hint
    var hintText := HintSplit(stepContent);
    var blockSolution: Option<string> := None;
    if hintText.Some? {
      headerContentMd := hintText.value.0;
      var hint := hintText.value.1;
      if hint != "" {
        // hidden snippets are removed from the hint
        blockSolution := Some(StripHidden(hint));
      }
    }
    var hasHint := blockSolution.Some? && |blockSolution.value| > 1;
    info := flags.(headerContentMd := headerContentMd, contentMd := stepContent,
                   blockSolution := blockSolution, hasHint := hasHint);
  }

  /** The `replace` pass over the heading lines of level `n`, pushing one flag record per heading. */
  method CollectFlags(lines: seq<string>, n: nat) returns (infos: seq<StepInfo>)
    ensures infos == InitialInfos(lines, n)
  {
    infos := [];
    var j := 0;
    while j < |lines|
      invariant 0 <= j <= |lines|
      invariant |infos| == |HeadingLines(lines[..j], n)|
      invariant forall k :: 0 <= k < |infos| ==>
        infos[k] == InitialInfo(HeadingText(HeadingLines(lines[..j], n)[k], n))
    {
      HeadingLinesSnoc(lines, j, n);
      if IsHeading(lines[j], n) {
        infos := infos + [InitialInfo(HeadingText(lines[j], n))];
      }
      j := j + 1;
    }
    assert lines[..j] == lines;
  }

  /** The split at `##` headings, falling back to `###` headings when it yields at most one fragment. */
  method SplitSteps(lines: seq<string>) returns (fragments: seq<seq<string>>, level: nat)
    ensures level == ChosenLevel(lines) && fragments == Fragments(lines, level)
    ensures level == 2 || level == 3
  {
    fragments := Fragments(lines, 2);
    level := 2;
    if |fragments| <= 1 {
      // at most one fragment: cut at the legacy `###` headings instead
      fragments := Fragments(lines, 3);
      level := 3;
    }
  }

  /** The loop over the step fragments: record `i` is completed from fragment `i`. */
  method CompleteSteps(flags: seq<StepInfo>, fragments: seq<seq<string>>) returns (infos: seq<StepInfo>)
    requires |flags| == |fragments|
    ensures infos == CompleteAll(flags, fragments)
  {
    infos := flags;
    var i := 0;
    while i < |fragments|
      invariant 0 <= i <= |fragments| && |infos| == |flags|
      invariant forall k :: 0 <= k < i ==> infos[k] == WithContent(flags[k], fragments[k])
      invariant forall k :: i <= k < |infos| ==> infos[k] == flags[k]
    {
      var info := CompleteStep(infos[i], fragments[i]);
      infos := infos[i := info];
      i := i + 1;
    }
  }

  /** `parseTutorialSteps`, with its collecting pass over the heading lines and its loop over the fragments. */
  method ParseTutorialSteps(doc: string) returns (steps: Option<seq<StepInfo>>)
    ensures steps == StepsOf(doc)
  {
    var lines := Lines(doc);
    var fragments, level := SplitSteps(lines);
    if IsNotFound(fragments[0]) {
      return None;
    }
    // the replace callback: one record per heading line, flags only
    var infos := CollectFlags(lines, level);
    // `split` always yields at least one fragment, so the `steps.length < 1` guard never fires;
    // the title fragment is dropped and fragment i + 1 completes record i
    infos := CompleteSteps(infos, fragments[1..]);
    steps := Some(infos);
  }
}
