/**
 * The tutorial assembler, `parseTutorial`: the title, the steps and the aggregated code of one
 * tutorial document, or nothing when the step segmenter fails.
 */
module Tutorial {
  import opened Wrappers
  import opened Strings
  import opened Title
  import opened Steps
  import opened StepProperties
  import opened Code
  import opened CodeProperties

  /** `TutorialInfo`, the record handed to the tutorial player. */
  datatype TutorialInfo = TutorialInfo(
    editor: Editor,
    title: Option<string>,
    steps: seq<StepInfo>,
    code: string,
    templateCode: Option<string>)

  /**
   * `parseTutorial(doc)`, where `fences` are the fenced blocks the scanning pattern finds in
   * the normalised document, in order.
   */
  method ParseTutorial(doc: string, fences: seq<Fence>) returns (info: Option<TutorialInfo>)
    ensures info.None? <==> StepsOf(doc).None?
    ensures info.None? <==> StartsWith(doc, NotFoundTitle)
    ensures info.Some? ==>
      && info.value.title == ParseTutorialTitle(doc)
      && info.value.steps == StepsOf(doc).value
      && info.value.editor == FirstEditor(fences).GetOr(Blocks)
      && info.value.code == CodeOf(fences, FirstEditor(fences))
      && info.value.templateCode == LastTemplate(fences)
  {
    NotFoundExactly(doc);
    var steps := ParseTutorialSteps(doc);
    var title := ParseTutorialTitle(doc);
    if steps.None? {
      // the segmenter rejected the document
      return None;
    }
    // one pass over the fences gathers the code and fixes the editor
    var st := CollectCode(fences);
    AggregateSpec(fences);
    info := Some(TutorialInfo(
      editor := st.editor.GetOr(Blocks),
      title := title,
      steps := steps.value,
      code := st.code,
      templateCode := st.templateCode));
  }
}
