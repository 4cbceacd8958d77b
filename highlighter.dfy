/**
 * The line highlighter, `highlight`: a `<pre>` block whose text holds `@highlight` lines is
 * rebuilt line by line, each marker line dropped and the line after it wrapped in a
 * highlighted span. The element is modelled by the sequence of its child nodes.
 */
module Highlighter {
  import opened Strings

  /** A child node of the `<pre>`: a text node, or a `highlight-line` span holding one line. */
  datatype Segment = Text(text: string) | Highlighted(text: string)

  const Marker := "@highlight"

  /** The `textContent` of a sequence of child nodes. */
  function Content(segments: seq<Segment>): string {
    if |segments| == 0 then "" else segments[0].text + Content(segments[1..])
  }

  /**
   * The nodes the rebuilding loop appends for `lines`: a marker line is dropped and the next
   * line, whatever it holds, becomes a span; any other line becomes a text node with its newline.
   */
  function Render(lines: seq<string>): seq<Segment>
    decreases |lines|
  {
    if |lines| == 0 then []
    else if Contains(lines[0], Marker) then
      if |lines| == 1 then [] else [Highlighted(lines[1])] + Render(lines[2..])
    else [Text(lines[0] + "\n")] + Render(lines[1..])
  }

  /** The lines from index `i` on; none once the loop index has jumped past the end. */
  function Rest(lines: seq<string>, i: nat): seq<string> {
    if i <= |lines| then lines[i..] else []
  }

  /** One step of `Render` on the lines from index `i` on. */
  lemma RenderFrom(lines: seq<string>, i: nat)
    requires i < |lines|
    ensures Render(lines[i..]) ==
      if Contains(lines[i], Marker) then
        if i + 1 == |lines| then [] else [Highlighted(lines[i + 1])] + Render(lines[i + 2..])
      else [Text(lines[i] + "\n")] + Render(lines[i + 1..])
  {
    assert lines[i..][1..] == lines[i + 1..];
    if i + 1 < |lines| {
      assert lines[i..][2..] == lines[i + 2..];
    }
  }

  /** A `<pre>` element, seen through its child nodes. */
  class Pre {
    var children: seq<Segment>

    function TextContent(): string
      reads this
    {
      Content(children)
    }

    /** A `<pre>` holding one text node. */
    constructor (text: string)
      ensures children == [Text(text)]
    {
      children := [Text(text)];
    }

    /**
     * `highlight(pre)`. `collapse` stands for the two rewrites that shrink multi-line image
     * literals to a placeholder before the lines are split.
     */
    method Highlight(collapse: string -> string)
      modifies this
      ensures !Contains(old(TextContent()), Marker) ==> children == old(children)
      ensures Contains(old(TextContent()), Marker) ==>
        children == Render(Split(collapse(old(TextContent())), '\n'))
    {
      var text := TextContent();
      if !Contains(text, Marker) {
        // without a marker the element keeps its children
        return;
      }
      text := collapse(text);
      // drop every child, then append the rendered lines
      children := [];
      RenderLines(Split(text, '\n'));
    }

    /** The rebuilding loop of `highlight`: appends the nodes for `lines`, jumping over each marker line. */
    method RenderLines(lines: seq<string>)
      modifies this
      ensures children == old(children) + Render(lines)
    {
      var i := 0;
      while i < |lines|
        invariant 0 <= i <= |lines| + 1
        invariant children + Render(Rest(lines, i)) == old(children) + Render(lines)
        decreases |lines| + 1 - i
      {
        var line := lines[i];
        RenderFrom(lines, i);
        ghost var done := children;
        if Contains(line, Marker) {
          // a marker line is replaced by a span holding the following line
          i := i + 1;
          if i < |lines| {
            children := children + [Highlighted(lines[i])];
            assert Rest(lines, i + 1) == lines[i + 1..];
            assert done + Render(lines[i - 1..]) == done + [Highlighted(lines[i])] + Render(lines[i + 1..]);
          }
        } else {
          children := children + [Text(line + "\n")];
          assert Rest(lines, i + 1) == lines[i + 1..];
          assert done + Render(lines[i..]) == done + [Text(line + "\n")] + Render(lines[i + 1..]);
        }
        i := i + 1;
      }
      assert lines[0..] == lines;
    }
  }
}
