/**
 * What the highlighter promises, proved about `Render`: read line by line, a marker line that is
 * not itself highlighted emits nothing, the line after it emits a span, and every other line
 * emits a text node with its newline.
 */
module HighlighterProperties {
  import opened Strings
  import opened Highlighter

  /** Line `i` is wrapped in a span: the line before it was dropped as a marker line. */
  predicate Spanned(lines: seq<string>, i: nat)
    requires i <= |lines|
    decreases i, 0
  {
    i > 0 && Dropped(lines, i - 1)
  }

  /** Line `i` is dropped: it holds the marker and is not itself wrapped in a span. */
  predicate Dropped(lines: seq<string>, i: nat)
    requires i < |lines|
    decreases i, 1
  {
    Contains(lines[i], Marker) && !Spanned(lines, i)
  }

  /** The nodes line `i` emits on its own. */
  function Emit(lines: seq<string>, i: nat): seq<Segment>
    requires i < |lines|
  {
    if Dropped(lines, i) then []
    else if Spanned(lines, i) then [Highlighted(lines[i])]
    else [Text(lines[i] + "\n")]
  }

  /** The nodes lines `s` to `e - 1` emit, in order. */
  function EmitRange(lines: seq<string>, s: nat, e: nat): seq<Segment>
    requires s <= e <= |lines|
    decreases e - s
  {
    if s == e then [] else Emit(lines, s) + EmitRange(lines, s + 1, e)
  }

  /** From a line that is not in a span, `Render` of the remaining lines is what they emit one by one. */
  lemma {:induction false} RenderFromLine(lines: seq<string>, s: nat)
    requires s <= |lines| && !Spanned(lines, s)
    ensures Render(lines[s..]) == EmitRange(lines, s, |lines|)
    decreases |lines| - s
  {
    if s < |lines| {
      RenderFrom(lines, s);
      if Contains(lines[s], Marker) {
        assert Dropped(lines, s);
        if s + 1 < |lines| {
          assert Spanned(lines, s + 1) && !Dropped(lines, s + 1);
          assert !Spanned(lines, s + 2);
          RenderFromLine(lines, s + 2);
          assert EmitRange(lines, s, |lines|) == [] + ([Highlighted(lines[s + 1])] + EmitRange(lines, s + 2, |lines|));
        } else {
          assert EmitRange(lines, s, |lines|) == [] + EmitRange(lines, s + 1, |lines|);
        }
      } else {
        assert !Spanned(lines, s + 1);
        RenderFromLine(lines, s + 1);
      }
    }
  }

  /** The rebuilt nodes are the per-line emissions, in line order. */
  lemma RenderByLine(lines: seq<string>)
    ensures Render(lines) == EmitRange(lines, 0, |lines|)
  {
    assert lines[0..] == lines;
    RenderFromLine(lines, 0);
  }

  /** A marker line emits nothing, and the line after it is a span even when it holds the marker too. */
  lemma MarkerHighlightsNext(lines: seq<string>, i: nat)
    requires i + 1 < |lines| && Contains(lines[i], Marker) && !Spanned(lines, i)
    ensures Emit(lines, i) == [] && Emit(lines, i + 1) == [Highlighted(lines[i + 1])]
  {
    assert Dropped(lines, i);
    assert Spanned(lines, i + 1) && !Dropped(lines, i + 1);
  }

  /** Containment survives putting text on either side. */
  lemma ContainsInside(a: string, b: string, c: string, p: string)
    requires Contains(b, p)
    ensures Contains(a + b + c, p)
  {
    var j := ContainsWitness(b, p);
    var s := a + b + c;
    assert s[|a| + j..|a| + j + |p|] == b[j..j + |p|];
    ContainsAt(s, p, |a| + j);
  }

  /** Every piece of a join sits between a prefix and a suffix of it. */
  lemma {:induction false} JoinAround(parts: seq<string>, sep: string, k: nat) returns (pre: string, post: string)
    requires k < |parts|
    ensures Join(parts, sep) == pre + parts[k] + post
    decreases k
  {
    if |parts| == 1 {
      pre, post := "", "";
    } else if k == 0 {
      pre, post := "", sep + Join(parts[1..], sep);
    } else {
      var p, q := JoinAround(parts[1..], sep, k - 1);
      pre, post := parts[0] + sep + p, q;
    }
  }

  /** A line of a text contains the marker only if the text does. */
  lemma LineMarkerInText(t: string, k: nat)
    requires k < |Split(t, '\n')| && Contains(Split(t, '\n')[k], Marker)
    ensures Contains(t, Marker)
  {
    JoinSplit(t, '\n');
    var pre, post := JoinAround(Split(t, '\n'), "\n", k);
    ContainsInside(pre, Split(t, '\n')[k], post, Marker);
  }

  /** Lines without a marker are all rebuilt as text nodes: the content is the lines joined, plus a final newline. */
  lemma {:induction false} RenderPlain(lines: seq<string>)
    requires |lines| >= 1
    requires forall k :: 0 <= k < |lines| ==> !Contains(lines[k], Marker)
    ensures forall k :: 0 <= k < |Render(lines)| ==> Render(lines)[k].Text?
    ensures Content(Render(lines)) == Join(lines, "\n") + "\n"
    decreases |lines|
  {
    var first := [Text(lines[0] + "\n")];
    if |lines| == 1 {
      assert Render(lines) == first + Render([]);
      assert Content(first) == lines[0] + "\n" + Content([]);
    } else {
      RenderPlain(lines[1..]);
      var rest := Render(lines[1..]);
      assert Render(lines) == first + rest;
      assert (first + rest)[1..] == rest;
      assert Content(first + rest) == lines[0] + "\n" + Content(rest);
    }
  }

  /**
   * When the image-literal rewrite leaves no marker in the text, rebuilding still happens and
   * yields the text as plain text with one extra newline at the end.
   */
  lemma RebuildWithoutMarker(t: string)
    requires !Contains(t, Marker)
    ensures Content(Render(Split(t, '\n'))) == t + "\n"
  {
    var lines := Split(t, '\n');
    forall k | 0 <= k < |lines| ensures !Contains(lines[k], Marker) {
      if Contains(lines[k], Marker) {
        LineMarkerInText(t, k);
      }
    }
    RenderPlain(lines);
    JoinSplit(t, '\n');
  }
}
