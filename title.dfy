/** The title extractor, `parseTutorialTitle`: the first `# ...` line of the document. */
module Title {
  import opened Wrappers
  import opened Strings
  import opened Headings

  /** Index of the first level-1 heading among `lines`, or `|lines|` when there is none. */
  function TitleIndex(lines: seq<string>): (i: nat)
    ensures i <= |lines|
    ensures i < |lines| ==> IsHeading(lines[i], 1)
    ensures forall k :: 0 <= k < i ==> !IsHeading(lines[k], 1)
  {
    if |lines| == 0 || IsHeading(lines[0], 1) then 0
    else
      var i := 1 + TitleIndex(lines[1..]);
      assert forall k :: 1 <= k < i ==> lines[k] == lines[1..][k - 1];
      i
  }

  /**
   * `tutorialmd.match(/^#[^#](.*)$/mi)`: the text after `#` and one non-`#` character on the
   * first matching line, not trimmed; `null` (here `None`) when no line matches.
   */
  function ParseTutorialTitle(doc: string): (title: Option<string>)
    ensures title.None? <==> forall k :: 0 <= k < |Lines(doc)| ==> !IsHeading(Lines(doc)[k], 1)
    ensures title.Some? ==>
      exists i :: 0 <= i < |Lines(doc)| && IsHeading(Lines(doc)[i], 1)
        && title.value == Lines(doc)[i][2..]
        && forall k :: 0 <= k < i ==> !IsHeading(Lines(doc)[k], 1)
  {
    var lines := Lines(doc);
    var i := TitleIndex(lines);
    if i < |lines| then Some(HeadingText(lines[i], 1)) else None
  }

  /**
   * The title is not trimmed: after `#` and the one non-`#` character it consumes (often a
   * space), the rest of the first line is the title exactly, leading and trailing spaces included.
   */
  lemma TitleKeepsSpacing(c: char, t: string, more: string)
    requires c != '#' && c != '\n' && '\n' !in t
    ensures ParseTutorialTitle("#" + [c] + t + "\n" + more) == Some(t)
  {
    var line := "#" + [c] + t;
    var doc := line + "\n" + more;
    assert '\n' !in line by {
      assert forall k :: 2 <= k < |line| ==> line[k] == t[k - 2];
    }
    IndexOfJoined(line, more, '\n');
    SplitStep(doc, '\n');
    assert doc[..|line|] == line;
    assert IsHeading(line, 1);
    assert line[2..] == t;
  }
}
