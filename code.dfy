/**
 * The code aggregator and editor inference of `parseTutorial`: a pass over the fenced code
 * blocks of the document, in order, that appends each block's body to `code`, keeps the body
 * of the last `template` block, and fixes the editor kind to the first kind a block proposes.
 *
 * The blocks are given as the sequence of fences the scanning pattern finds; finding them in
 * the text is not part of this model.
 */
module Code {
  import opened Wrappers
  import opened Strings

  /** The three project kinds a tutorial can target. */
  datatype Editor = Blocks | Python | JavaScript

  /** A fenced block: its tag (absent for a bare fence) and its body. */
  datatype Fence = Fence(tag: Option<string>, body: string)

  /** The state the pass updates: `editor`, `code`, `templateCode`, and whether a conflict was logged. */
  datatype CodeState = CodeState(editor: Option<Editor>, code: string, templateCode: Option<string>, ambiguous: bool)

  const Init := CodeState(None, "", None, false)

  /** The tags the scanning pattern accepts (ASCII case ignored). */
  const CodeTags: seq<string> :=
    ["sim", "block", "blocks", "filterblocks", "spy", "ghost", "typescript", "ts", "js", "javascript", "template"]

  /** The fence is one the scanning pattern matches: untagged, or tagged with a code tag in any ASCII case. */
  predicate Matched(f: Fence) {
    f.tag.None? || exists j :: 0 <= j < |CodeTags| && EqualsIgnoreCase(f.tag.value, CodeTags[j])
  }

  /** The editor kind the case-sensitive `switch` assigns to a tag, if any. */
  function TagEditor(tag: string): Option<Editor> {
    if tag == "block" || tag == "blocks" || tag == "filterblocks" then Some(Blocks)
    else if tag == "spy" then Some(Python)
    else if tag == "typescript" || tag == "ts" || tag == "javascript" || tag == "js" then Some(JavaScript)
    else None
  }

  /** The editor kind a fence proposes. */
  function Kind(f: Fence): Option<Editor> {
    if f.tag.Some? then TagEditor(f.tag.value) else None
  }

  /** A fence's contribution to `code`: its body between a pair of braces. */
  function Wrap(body: string): string {
    "\n { \n " + body + "\n } \n"
  }

  /**
   * `checkTutorialEditor`: a proposal is accepted when no kind is fixed yet or it is the fixed
   * kind, and afterwards the proposed kind is fixed; a rejected proposal leaves it as it was.
   */
  function Propose(editor: Option<Editor>, expected: Editor): (r: (bool, Option<Editor>))
    ensures r.0 <==> editor.None? || editor == Some(expected)
    ensures r.1.Some?
    ensures editor.Some? ==> r.1 == editor
    ensures r.0 <==> r.1 == Some(expected)
  {
    if editor.Some? && editor.value != expected then (false, editor) else (true, Some(expected))
  }

  /** The `replace` callback applied to one fence. */
  function Step(st: CodeState, f: Fence): CodeState {
    if !Matched(f) then st
    else if Kind(f).Some? then
      var (ok, editor) := Propose(st.editor, Kind(f).value);
      if ok then st.(editor := editor, code := st.code + Wrap(f.body))
      else st.(ambiguous := true)
    else
      var templateCode := if f.tag == Some("template") then Some(f.body) else st.templateCode;
      st.(code := st.code + Wrap(f.body), templateCode := templateCode)
  }

  /** The state after the callback has run on every fence, in document order. */
  function Aggregate(fences: seq<Fence>): CodeState {
    if |fences| == 0 then Init
    else Step(Aggregate(fences[..|fences| - 1]), fences[|fences| - 1])
  }

  /** The local state of `parseTutorial` that the callback and `checkTutorialEditor` update. */
  class CodeCollector {
    var editor: Option<Editor>
    var code: string
    var templateCode: Option<string>
    var ambiguous: bool

    function State(): CodeState
      reads this
    {
      CodeState(editor, code, templateCode, ambiguous)
    }

    constructor ()
      ensures State() == Init
    {
      editor, code, templateCode, ambiguous := None, "", None, false;
    }

    /** `checkTutorialEditor(expected)`: fixes the editor on the first proposal, rejects a different later one. */
    method CheckTutorialEditor(expected: Editor) returns (ok: bool)
      modifies this
      ensures ok <==> old(editor).None? || old(editor) == Some(expected)
      ensures editor == if ok then Some(expected) else old(editor)
      ensures ambiguous == (old(ambiguous) || !ok)
      ensures code == old(code) && templateCode == old(templateCode)
    {
      if editor.Some? && editor.value != expected {
        // the tutorial mixes snippets of different kinds
        ambiguous := true;
        return false;
      }
      editor := Some(expected);
      return true;
    }

    /** The `replace` callback for one matched or unmatched fence. */
    method Visit(f: Fence)
      modifies this
      ensures State() == Step(old(State()), f)
    {
      if !Matched(f) {
        return;
      }
      var kind := Kind(f);
      if kind.Some? {
        var ok := CheckTutorialEditor(kind.value);
        if !ok {
          return;
        }
      } else if f.tag == Some("template") {
        templateCode := Some(f.body);
      }
      code := code + Wrap(f.body);
    }
  }

  /** The pass over all fences of the document. */
  method CollectCode(fences: seq<Fence>) returns (st: CodeState)
    ensures st == Aggregate(fences)
  {
    var collector := new CodeCollector();
    var i := 0;
    while i < |fences|
      invariant 0 <= i <= |fences|
      invariant collector.State() == Aggregate(fences[..i])
    {
      collector.Visit(fences[i]);
      assert fences[..i + 1][..i] == fences[..i];
      i := i + 1;
    }
    assert fences[..i] == fences;
    st := collector.State();
  }
}
