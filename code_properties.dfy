/**
 * What the code aggregator promises, proved about `Aggregate`, the function `CollectCode`
 * computes: the editor is the kind of the first fence that proposes one, only fences of a
 * conflicting kind are dropped from `code`, and `templateCode` is the last template body.
 */
module CodeProperties {
  import opened Wrappers
  import opened Strings
  import opened Code

  /** The kind of the first fence that proposes one, read from the front. */
  function FirstEditor(fences: seq<Fence>): Option<Editor> {
    if |fences| == 0 then None
    else if Kind(fences[0]).Some? then Kind(fences[0])
    else FirstEditor(fences[1..])
  }

  /** A fence adds to `code` when it is matched and does not propose a kind other than `editor`. */
  predicate Contributes(f: Fence, editor: Option<Editor>) {
    Matched(f) && (Kind(f).None? || Kind(f) == editor)
  }

  /** The wrapped bodies of the contributing fences, in document order. */
  function CodeOf(fences: seq<Fence>, editor: Option<Editor>): string {
    if |fences| == 0 then ""
    else (if Contributes(fences[0], editor) then Wrap(fences[0].body) else "") + CodeOf(fences[1..], editor)
  }

  /** The body of the last fence tagged exactly `template`, read from the front. */
  function LastTemplate(fences: seq<Fence>): Option<string> {
    if |fences| == 0 then None
    else
      var rest := LastTemplate(fences[1..]);
      if rest.Some? then rest
      else if fences[0].tag == Some("template") then Some(fences[0].body)
      else None
  }

  /** Some fence proposes a kind other than the first one proposed. */
  predicate HasConflict(fences: seq<Fence>) {
    exists k :: 0 <= k < |fences| && Kind(fences[k]).Some? && Kind(fences[k]) != FirstEditor(fences)
  }

  /** A tag the `switch` recognises is one the scanning pattern accepts. */
  lemma KindIsMatched(f: Fence)
    requires Kind(f).Some?
    ensures Matched(f)
  {
    var t := f.tag.value;
    var j := if t == "block" then 1 else if t == "blocks" then 2 else if t == "filterblocks" then 3
      else if t == "spy" then 4 else if t == "typescript" then 6 else if t == "ts" then 7
      else if t == "js" then 8 else 9;
    assert EqualsIgnoreCase(t, CodeTags[j]);
  }

  lemma {:induction false} FirstEditorSnoc(fences: seq<Fence>, f: Fence)
    ensures FirstEditor(fences + [f]) == if FirstEditor(fences).Some? then FirstEditor(fences) else Kind(f)
    decreases |fences|
  {
    if |fences| > 0 {
      assert (fences + [f])[1..] == fences[1..] + [f];
      FirstEditorSnoc(fences[1..], f);
    } else {
      assert (fences + [f])[1..] == [];
    }
  }

  /** Without a proposing fence, no fence is refused, whatever kind is fixed. */
  lemma {:induction false} CodeOfNoKinds(fences: seq<Fence>, e: Option<Editor>)
    requires FirstEditor(fences).None?
    ensures CodeOf(fences, e) == CodeOf(fences, None)
    decreases |fences|
  {
    if |fences| > 0 {
      CodeOfNoKinds(fences[1..], e);
    }
  }

  lemma {:induction false} CodeOfSnoc(fences: seq<Fence>, f: Fence, e: Option<Editor>)
    ensures CodeOf(fences + [f], e) == CodeOf(fences, e) + (if Contributes(f, e) then Wrap(f.body) else "")
    decreases |fences|
  {
    if |fences| > 0 {
      assert (fences + [f])[1..] == fences[1..] + [f];
      CodeOfSnoc(fences[1..], f, e);
    } else {
      assert (fences + [f])[1..] == [];
    }
  }

  lemma {:induction false} LastTemplateSnoc(fences: seq<Fence>, f: Fence)
    ensures LastTemplate(fences + [f]) == if f.tag == Some("template") then Some(f.body) else LastTemplate(fences)
    decreases |fences|
  {
    if |fences| > 0 {
      assert (fences + [f])[1..] == fences[1..] + [f];
      LastTemplateSnoc(fences[1..], f);
    } else {
      assert (fences + [f])[1..] == [];
    }
  }

  /** No fence proposes a kind exactly when the first proposed kind is absent. */
  lemma {:induction false} FirstEditorNone(fences: seq<Fence>)
    ensures FirstEditor(fences).None? <==> forall k :: 0 <= k < |fences| ==> Kind(fences[k]).None?
    decreases |fences|
  {
    if |fences| > 0 {
      FirstEditorNone(fences[1..]);
      assert forall k :: 1 <= k < |fences| ==> fences[k] == fences[1..][k - 1];
    }
  }

  lemma ConflictSnoc(fences: seq<Fence>, f: Fence)
    ensures HasConflict(fences + [f]) <==>
      HasConflict(fences) || (FirstEditor(fences).Some? && Kind(f).Some? && Kind(f) != FirstEditor(fences))
  {
    var all := fences + [f];
    FirstEditorSnoc(fences, f);
    FirstEditorNone(fences);
    assert forall k :: 0 <= k < |fences| ==> all[k] == fences[k];
    assert all[|fences|] == f;
    if HasConflict(all) {
      var k :| 0 <= k < |all| && Kind(all[k]).Some? && Kind(all[k]) != FirstEditor(all);
      if k < |fences| {
        assert Kind(fences[k]).Some?;
      }
    }
  }

  /**
   * The pass computes the reference definitions: the editor is the first proposed kind, `code`
   * holds the wrapped bodies of exactly the contributing fences in order, `templateCode` is the
   * last template body, and a conflict is logged exactly when some fence proposes another kind.
   */
  lemma {:induction false} AggregateSpec(fences: seq<Fence>)
    ensures Aggregate(fences).editor == FirstEditor(fences)
    ensures Aggregate(fences).code == CodeOf(fences, FirstEditor(fences))
    ensures Aggregate(fences).templateCode == LastTemplate(fences)
    ensures Aggregate(fences).ambiguous <==> HasConflict(fences)
    decreases |fences|
  {
    if |fences| == 0 {
    } else {
      var init := fences[..|fences| - 1];
      var f := fences[|fences| - 1];
      assert fences == init + [f];
      AggregateSpec(init);
      FirstEditorSnoc(init, f);
      LastTemplateSnoc(init, f);
      ConflictSnoc(init, f);
      var first := FirstEditor(fences);
      CodeOfSnoc(init, f, first);
      if FirstEditor(init).None? {
        CodeOfNoKinds(init, first);
        CodeOfNoKinds(init, None);
      }
      if Kind(f).Some? {
        KindIsMatched(f);
        assert f.tag != Some("template");
      } else if f.tag == Some("template") {
        assert EqualsIgnoreCase(f.tag.value, CodeTags[10]);
      }
    }
  }

  /** The inferred editor kind: the first proposed kind, blocks when no fence proposes one. */
  function InferredEditor(fences: seq<Fence>): Editor {
    Aggregate(fences).editor.GetOr(Blocks)
  }

  /** Fence `i` proposes a kind and no fence before it does. */
  predicate IsFirstProposal(fences: seq<Fence>, i: int) {
    0 <= i < |fences| && Kind(fences[i]).Some? && forall k :: 0 <= k < i ==> Kind(fences[k]).None?
  }

  /** The editor is the kind of the first proposing fence; with none it defaults to blocks. */
  lemma EditorIsFirstProposal(fences: seq<Fence>)
    ensures (forall k :: 0 <= k < |fences| ==> Kind(fences[k]).None?) ==> InferredEditor(fences) == Blocks
    ensures forall i :: IsFirstProposal(fences, i) ==> InferredEditor(fences) == Kind(fences[i]).value
  {
    AggregateSpec(fences);
    FirstEditorNone(fences);
    forall i | IsFirstProposal(fences, i)
      ensures FirstEditor(fences) == Kind(fences[i])
    {
      FirstProposalAt(fences, i);
    }
  }

  lemma {:induction false} FirstProposalAt(fences: seq<Fence>, i: nat)
    requires i < |fences| && Kind(fences[i]).Some?
    requires forall k :: 0 <= k < i ==> Kind(fences[k]).None?
    ensures FirstEditor(fences) == Kind(fences[i])
    decreases i
  {
    if i > 0 {
      assert Kind(fences[0]).None?;
      assert forall k :: 0 <= k < i - 1 ==> fences[1..][k] == fences[k + 1];
      FirstProposalAt(fences[1..], i - 1);
    }
  }

  /** Once fixed, the editor never changes: every longer prefix of the fences keeps it. */
  lemma {:induction false} EditorFixedOnce(fences: seq<Fence>, i: nat, j: nat)
    requires i <= j <= |fences|
    requires Aggregate(fences[..i]).editor.Some?
    ensures Aggregate(fences[..j]).editor == Aggregate(fences[..i]).editor
    decreases j - i
  {
    if i < j {
      EditorFixedOnce(fences, i, j - 1);
      assert fences[..j][..j - 1] == fences[..j - 1];
      var st := Aggregate(fences[..j - 1]);
      var f := fences[j - 1];
      if Matched(f) && Kind(f).Some? {
        var r := Propose(st.editor, Kind(f).value);
        assert r.1 == st.editor;
      }
    }
  }

  /** A fence of a kind other than the fixed one adds nothing to `code`. */
  lemma ConflictingFenceAddsNothing(fences: seq<Fence>, f: Fence)
    requires Aggregate(fences).editor.Some? && Kind(f).Some? && Kind(f) != Aggregate(fences).editor
    ensures Aggregate(fences + [f]).code == Aggregate(fences).code
    ensures Aggregate(fences + [f]).editor == Aggregate(fences).editor
    ensures Aggregate(fences + [f]).ambiguous
  {
    assert (fences + [f])[..|fences|] == fences;
    KindIsMatched(f);
  }

  /** Every other matched fence appends its wrapped body, whatever its tag. */
  lemma AcceptedFenceAppends(fences: seq<Fence>, f: Fence)
    requires Matched(f)
    requires Kind(f).None? || Aggregate(fences).editor.None? || Kind(f) == Aggregate(fences).editor
    ensures Aggregate(fences + [f]).code == Aggregate(fences).code + Wrap(f.body)
  {
    assert (fences + [f])[..|fences|] == fences;
  }

  /** `blocks` then `spy`: the editor is blocks, a conflict is logged, and only the blocks body is in the code. */
  lemma BlocksThenPython(a: string, b: string)
    ensures var st := Aggregate([Fence(Some("blocks"), a), Fence(Some("spy"), b)]);
      st.editor == Some(Blocks) && st.ambiguous && st.code == Wrap(a) && st.templateCode.None?
  {
    var fences := [Fence(Some("blocks"), a), Fence(Some("spy"), b)];
    KindIsMatched(fences[0]);
    KindIsMatched(fences[1]);
    assert fences[..1] == [fences[0]];
    var st0 := Aggregate([fences[0]]);
    assert [fences[0]][..0] == [];
    assert st0 == Step(Aggregate([]), fences[0]);
    assert st0 == CodeState(Some(Blocks), Wrap(a), None, false);
    assert Aggregate(fences) == Step(st0, fences[1]);
  }
}
