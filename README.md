# Tutorial markdown parser of pxt, modelled in Dafny

`pxtlib/tutorial.ts` turns the markdown of a MakeCode tutorial into the record the tutorial
player uses. This project models its five pieces:

- **The tutorial assembler** `parseTutorial`. It collects the code of the fenced blocks and infers
  the editor through the `checkTutorialEditor` closure.
  - `Code` holds the `replace` callback, modelled as a class `CodeCollector` whose fields are the
    closure's local state. `CollectCode` runs the callback over the fences in a loop.
  - `CodeProperties` gives reference definitions of the result and proves the loop computes them.
  - `Tutorial` holds `ParseTutorial` itself.
- **The title extractor** `parseTutorialTitle`, in `Title`. It is a first-match search over the
  lines of the document (`Headings`).
- **The step segmenter** `parseTutorialSteps`.
  - `Steps` cuts the document at its `##` headings, or at its `###` headings when there are
    none. It rejects a `# Not found` placeholder and pushes one flag record per heading.
  - Its loop then completes record `i` from fragment `i + 1`: content, header, hint and `hasHint`.
  - `Hints` writes out the hint pattern and the hidden-snippet pattern as the searches they perform.
  - `StepProperties` proves what a step holds.
- **The line highlighter** `highlight`, in `Highlighter`. The `<pre>` element is a class `Pre`
  whose children are a sequence of `Segment`s. The loop jumps over each `@highlight` line and
  wraps the line after it in a span. `HighlighterProperties` proves the line-by-line reading.
- **The snippet patcher** `patchArcadeSnippets`, in `Patcher`. It rewrites a legacy
  `enum SpriteKind { ... }` into a `namespace SpriteKind` block, or deletes it.

`Strings` models the JavaScript string operations used: `\s`, `trim`, `split` on one character,
`join` and ASCII case folding. `Sequences` defines subsequences, which state "only deletes".
`Wrappers` defines `Option`; `None` stands for `undefined` or `null`.

A document is a `string` split into lines at `\n`. The fenced blocks that the scanning pattern
finds are passed to `ParseTutorial` as a sequence of `Fence(tag, body)`. The target id that
`patchArcadeSnippets` reads from a global is passed as a parameter.

Five behaviours of the code are easy to misread. The model follows the code in each:
- The title is not trimmed (`Title.TitleKeepsSpacing`).
- A document without headings gives an empty step list, not a failure
  (`StepProperties.NoHeadingsNoSteps`).
- `blockSolution` is stored whenever the hint pattern matches, even when stripping hidden snippets
  leaves it empty (`StepProperties.StepWithHint`).
- `hasHint` needs the stripped hint to have length greater than 1, not merely be non-empty.
- The patcher is not idempotent. On `enum enum SpriteKind {Player} SpriteKind {B}` the first run
  deletes `enum SpriteKind {Player}` and leaves `enum  SpriteKind {B}`, which a second run
  rewrites. No idempotence property is claimed.

## Model

| member | source | states |
|---|---|---|
| Tutorial.ParseTutorial | pxtlib/tutorial.ts:2-60 | fails exactly when the segmenter fails, which is exactly when the document starts with `# Not found`; otherwise the title is the title extractor's, the steps are the segmenter's, the editor is the first proposed kind or blocks, `code` holds the wrapped bodies of the contributing fences, and `templateCode` is the last template body |
| Code.Propose | pxtlib/tutorial.ts:51-59 | a proposal is accepted iff no editor is fixed or it equals the fixed one; afterwards an editor is always fixed; a fixed editor never changes; acceptance is the same as the proposed kind being fixed |
| Code.CodeCollector.CheckTutorialEditor | pxtlib/tutorial.ts:51-59 | returns true iff the editor was unset or equal to the proposal; then the proposal is fixed, otherwise the editor is kept and the conflict is logged; `code` and `templateCode` are untouched |
| Code.CodeCollector.Visit | pxtlib/tutorial.ts:16-41 | the callback on one fence moves the collector's state by exactly one `Step` |
| Code.CollectCode | pxtlib/tutorial.ts:14-41 | the pass over all fences in document order ends in `Aggregate(fences)` |
| CodeProperties.KindIsMatched | pxtlib/tutorial.ts:10-34 | every tag the `switch` recognises is one the scanning pattern accepts |
| CodeProperties.AggregateSpec | pxtlib/tutorial.ts:9-41 | the editor is the kind of the first proposing fence, `code` is the wrapped bodies of exactly the fences that are matched and do not conflict, in order, `templateCode` is the body of the last fence tagged exactly `template`, and a conflict is logged iff some fence proposes another kind |
| CodeProperties.EditorIsFirstProposal | pxtlib/tutorial.ts:44 | the inferred editor is blocks when no fence proposes a kind, else the kind of the first fence that does |
| CodeProperties.FirstProposalAt | pxtlib/tutorial.ts:17-34 | a proposing fence with no proposing fence before it fixes the editor |
| CodeProperties.EditorFixedOnce | pxtlib/tutorial.ts:51-59 | once some prefix of the fences has fixed the editor, every longer prefix keeps it |
| CodeProperties.ConflictingFenceAddsNothing | pxtlib/tutorial.ts:21-34 | a fence of a kind other than the fixed one leaves `code` and the editor unchanged and logs a conflict |
| CodeProperties.AcceptedFenceAppends | pxtlib/tutorial.ts:39 | every other matched fence, whatever its tag or case, appends exactly `"\n { \n " + body + "\n } \n"` |
| CodeProperties.BlocksThenPython | pxtlib/tutorial.ts:17-39 | a `blocks` fence then a `spy` fence: the editor is blocks, a conflict is logged, only the blocks body is in `code`, and there is no template |
| Title.TitleIndex | pxtlib/tutorial.ts:63 | the index of the first level-1 heading line, or the number of lines when there is none |
| Title.ParseTutorialTitle | pxtlib/tutorial.ts:62-65 | absent iff no line is `#` then a non-`#` character; otherwise the rest of the first such line after those two characters |
| Title.TitleKeepsSpacing | pxtlib/tutorial.ts:63-64 | on a first line `#`, a non-`#` character, then `t`, the title is exactly `t`, spaces included |
| Strings.Split | pxtlib/tutorial.ts:133 | `split` on one character gives at least one piece and no piece holds the separator |
| Strings.JoinSplit | pxtlib/tutorial.ts:133 | joining the pieces of a split with the separator gives the text back |
| Strings.SplitJoin | pxtlib/tutorial.ts:133 | splitting a join of separator-free pieces gives the pieces back |
| Strings.Trim | pxtlib/tutorial.ts:99 | `trim` keeps a slice of the text with only white space on either side, and the slice neither starts nor ends with white space |
| StepProperties.InitialFlags | pxtlib/tutorial.ts:85-89 | the record pushed for a heading has `fullscreen` iff `@fullscreen` or `@unplugged` occurs in its text, `unplugged` iff `@unplugged` does, `tutorialCompleted` iff `@tutorialCompleted` does, so unplugged implies fullscreen; the content fields hold placeholders until the completion loop at :98-118 sets them |
| Steps.HeadingLines | pxtlib/tutorial.ts:84 | every line the flag pass visits is a heading of the chosen level |
| Steps.FirstHeading | pxtlib/tutorial.ts:72 | the index of the first heading of a level, with no heading before it |
| Steps.Fragments | pxtlib/tutorial.ts:72 | the split at heading lines has one more fragment than there are headings |
| Steps.SplitSteps | pxtlib/tutorial.ts:72-78 | splits at `##` headings, falling back to `###` when that gives at most one fragment; the level used is 2 or 3 |
| Steps.CollectFlags | pxtlib/tutorial.ts:84-92 | pushes one flag record per heading line, in order |
| Steps.CompleteStep | pxtlib/tutorial.ts:99-117 | one loop iteration computes the step's content, header, hint and `hasHint` as `WithContent` says |
| Steps.CompleteAll | pxtlib/tutorial.ts:98-118 | record `k` is flag record `k` completed from fragment `k`, and there are as many records as flags |
| Steps.CompleteSteps | pxtlib/tutorial.ts:98-118 | the loop completes every record from its own fragment |
| Steps.ParseTutorialSteps | pxtlib/tutorial.ts:67-120 | the segmenter computes `StepsOf(doc)` |
| StepProperties.HeadingLinesEmpty | pxtlib/tutorial.ts:84 | there are no heading lines of a level iff no line is a heading of that level |
| StepProperties.LevelChoice | pxtlib/tutorial.ts:72-78 | level 2 is used iff some line is a `##` heading, else level 3 |
| StepProperties.PreambleBeforeFirstHeading | pxtlib/tutorial.ts:72 | the first fragment is the lines before the first heading |
| StepProperties.NotFoundExactly | pxtlib/tutorial.ts:79-82 | the segmenter fails iff the document starts with `# Not found` |
| StepProperties.FragmentsPartition | pxtlib/tutorial.ts:72 | putting the headings back between the fragments gives the document's lines, and no fragment holds a heading |
| StepProperties.NoHeadingsNoSteps | pxtlib/tutorial.ts:94-96 | without `##` or `###` headings and without the placeholder, the result is an empty list, not a failure |
| StepProperties.StepsFromHeadings | pxtlib/tutorial.ts:84-102 | one step per heading of the chosen level, in order; step `i` has the flags of heading `i` and the trimmed content of fragment `i + 1` |
| StepProperties.ContentKeepsFlags | pxtlib/tutorial.ts:98-117 | completing a step keeps its three flags and sets `contentMd` to the trimmed fragment |
| StepProperties.FirstLineIsPrefix | pxtlib/tutorial.ts:100-101 | the first line starts the text and holds no line break |
| StepProperties.StepWithoutHint | pxtlib/tutorial.ts:99-117 | without a hint match, the header is the content's first line, there is no solution and no hint |
| StepProperties.StepWithHint | pxtlib/tutorial.ts:105-117 | with a hint match, the content is header, white space, hint; the header is group 1; the solution is the hint with hidden snippets deleted, and it only deletes; `hasHint` iff its length exceeds 1 |
| StepProperties.HeaderStartsContent | pxtlib/tutorial.ts:101-108 | the header is always a prefix of `contentMd` |
| StepProperties.UnpluggedIsFullscreen | pxtlib/tutorial.ts:86-87 | every unplugged step is fullscreen |
| Hints.FirstMarker | pxtlib/tutorial.ts:69 | the first index from a start where a fence or image marker begins, with none before it |
| Hints.NonWhiteBefore | pxtlib/tutorial.ts:69 | the group `[\s\S]*?\S` can end before an index iff the leading white space ends before it |
| Hints.HeaderShape | pxtlib/tutorial.ts:69 | group 1 is a non-empty prefix that ends in a non-white character, followed only by white space up to the marker |
| Hints.HintSplit | pxtlib/tutorial.ts:69 | on a match, the hint is the suffix from a marker and the header is a non-empty prefix ending in non-white followed only by white space up to it |
| Hints.HintSplitIsFirstMatch | pxtlib/tutorial.ts:69 | the pattern matches iff some marker follows a non-white character, and it cuts at the first such marker |
| Hints.HintSplitShape | pxtlib/tutorial.ts:69 | on a match, the content is group 1, white space, then group 2 |
| Hints.HiddenTagLength | pxtlib/tutorial.ts:68 | the length of a hidden tag the text starts with (ASCII case ignored), or 0 iff it starts with none |
| Hints.CloseFrom | pxtlib/tutorial.ts:68 | the first closing line break and backticks from an index, with none before it |
| Hints.HiddenSnippetLength | pxtlib/tutorial.ts:68 | a hidden-snippet match starts with backticks and is longer than them |
| Hints.BodyEndSound | pxtlib/tutorial.ts:68 | whatever the search for `\s*\n([\s\S]*?)\n```` finds is the match a backtracking matcher picks: the greedy white run keeps the last newline from which a closing fence can be reached, and the lazy body stops at the first closing fence after it |
| Hints.BodyEndComplete | pxtlib/tutorial.ts:68 | every such match is the one the search finds, with the same end |
| Hints.HiddenSnippetSound | pxtlib/tutorial.ts:68 | a non-zero length is the end of a match of the hidden-snippet pattern: backticks, a hidden tag in any ASCII case, then the body match |
| Hints.HiddenSnippetComplete | pxtlib/tutorial.ts:68 | every match of the hidden-snippet pattern at the start of the text has the length the search gives |
| Hints.HiddenSnippetExists | pxtlib/tutorial.ts:68 | a hidden snippet starts the text iff the search gives a non-zero length |
| Hints.StripHidden | pxtlib/tutorial.ts:112 | stripping never lengthens the hint |
| Hints.StripHiddenSpec | pxtlib/tutorial.ts:112 | the scan of `replace`: an empty hint stays empty; a hidden snippet at the start is deleted and the scan resumes after it; otherwise the first character is kept and the scan moves on by one |
| Hints.StripHiddenDeletes | pxtlib/tutorial.ts:112 | stripping only deletes characters and keeps the rest in order |
| Hints.StripHiddenNoSnippet | pxtlib/tutorial.ts:112 | a hint without hidden snippets is stored unchanged |
| Highlighter.RenderFrom | pxtlib/tutorial.ts:134-147 | one step of the rebuild: a marker line spans the next line or, when it is the last line, emits nothing; any other line emits a text node with its newline |
| Highlighter.Pre.Highlight | pxtlib/tutorial.ts:122-149 | without `@highlight` the children are unchanged; otherwise they are exactly the nodes rebuilt from the lines of the collapsed text |
| Highlighter.Pre.RenderLines | pxtlib/tutorial.ts:133-148 | the loop appends exactly `Render(lines)` to the children |
| HighlighterProperties.RenderFromLine | pxtlib/tutorial.ts:134-148 | from a line not in a span, the rebuilt nodes are what each remaining line emits, in order |
| HighlighterProperties.RenderByLine | pxtlib/tutorial.ts:134-148 | the rebuilt nodes are the per-line emissions in line order: a marker line that is not itself spanned emits nothing, the line after it emits a span, others a text node |
| HighlighterProperties.MarkerHighlightsNext | pxtlib/tutorial.ts:136-144 | a marker line emits nothing and the next line is a span even when it holds the marker too |
| Strings.ContainsAt | pxtlib/tutorial.ts:136 | an occurrence at an index makes the regex test succeed |
| Strings.ContainsWitness | pxtlib/tutorial.ts:136 | a successful regex test has an occurrence at some index |
| Strings.ContainsIff | pxtlib/tutorial.ts:124 | a regex test for a literal succeeds iff the literal occurs at some index |
| HighlighterProperties.LineMarkerInText | pxtlib/tutorial.ts:124-136 | a line holds the marker only if the whole text does |
| HighlighterProperties.RenderPlain | pxtlib/tutorial.ts:145-147 | lines without a marker all become text nodes whose content is the lines joined plus a final newline |
| HighlighterProperties.RebuildWithoutMarker | pxtlib/tutorial.ts:128-148 | when the image rewrite leaves no marker, the rebuilt content is the text plus one newline |
| Patcher.SkipWhite | pxtlib/tutorial.ts:161 | an index at or after the start and within the text; that it ends the white run is `SkipWhiteSpec` |
| Patcher.SkipWhiteSpec | pxtlib/tutorial.ts:161 | the skipped run is white space and is maximal |
| Patcher.FindCloseSpec | pxtlib/tutorial.ts:161 | `FindClose` finds the first `}` |
| Patcher.MatchAt | pxtlib/tutorial.ts:161 | a match at an index has a non-empty body and ends within the text |
| Patcher.MatchShape | pxtlib/tutorial.ts:161 | a match has the pattern's shape: `enum`, white space, `SpriteKind`, white space, `{`, a non-empty body without `}`, then `}` |
| Patcher.ShapeMatches | pxtlib/tutorial.ts:161 | every occurrence of that shape is matched, with the same body and end |
| Patcher.MatchIffShape | pxtlib/tutorial.ts:161 | a match begins at an index iff the text there has the pattern's shape |
| Patcher.FirstMatch | pxtlib/tutorial.ts:163 | an index from the start on where a match begins, or the text's length |
| Patcher.FirstMatchMinimal | pxtlib/tutorial.ts:163 | no match begins between the start and the index `FirstMatch` gives, so `exec` finds the first match |
| Patcher.FirstDeclaration | pxtlib/tutorial.ts:161-163 | the first occurrence of the shape from an index on is where the first match is, with the shape's body and end |
| Patcher.SeparatorIndex | pxtlib/tutorial.ts:166 | an index within the text; that it is the first separator is `SeparatorIndexSpec` |
| Patcher.SeparatorIndexSpec | pxtlib/tutorial.ts:166 | no white-space-or-comma character comes before the index, and the character at it, if any, is one |
| Patcher.SeparatorRun | pxtlib/tutorial.ts:166 | a length within the text; that the run is maximal is `SeparatorRunSpec` |
| Patcher.SeparatorRunSpec | pxtlib/tutorial.ts:166 | the run at the start is all separators, and the character after it, if any, is not one |
| Patcher.SplitRuns | pxtlib/tutorial.ts:166 | splitting at runs of white space and commas gives at least one token |
| Patcher.SplitRunsTokenization | pxtlib/tutorial.ts:166 | the tokens and the runs cut the body: every run is a non-empty run of separators, no token holds one, every inner token is non-empty, and putting the runs back between the tokens gives the body |
| Patcher.TokenizationUnique | pxtlib/tutorial.ts:166 | any such cut of a text is the split's, so the split is the only one |
| Patcher.TokenizationEnds | pxtlib/tutorial.ts:166 | in such a cut the first (last) token is empty iff the text is empty or starts (ends) with a separator |
| Patcher.SplitRunsEnds | pxtlib/tutorial.ts:166 | the first (last) piece of the split is empty iff the body is empty or starts (ends) with a separator |
| Patcher.TrimAll | pxtlib/tutorial.ts:167 | token `k` of the result is the trim of token `k` |
| Patcher.TrimAllUnchanged | pxtlib/tutorial.ts:166-167 | trimming the split tokens changes none of them |
| Patcher.UserKindsSpec | pxtlib/tutorial.ts:168-169 | the kept names are a subsequence of the tokens; a name is kept iff it holds an ASCII letter and is not built in, and then as many times as it occurs among the tokens |
| Patcher.ReferencedNamesSpec | pxtlib/tutorial.ts:166-169 | `ReferencedNames(body)` is the split's pieces that hold a letter and are not built in, in body order and with their multiplicities, and none holds white space or a comma |
| Patcher.KindLinesShape | pxtlib/tutorial.ts:175 | one `export const` line per name, in order, without line breaks |
| Patcher.NamespaceIsJoin | pxtlib/tutorial.ts:172-177 | the namespace block is its lines joined by line breaks |
| Patcher.NamespaceLines | pxtlib/tutorial.ts:172-177 | the block splits into an empty line, `namespace SpriteKind {`, one line per name, `}`, and an empty line |
| Patcher.PatchArcadeSnippets | pxtlib/tutorial.ts:158-185 | off the `arcade` and `pxt-32` targets the input is returned unchanged |
| Patcher.NoDeclarationUnchanged | pxtlib/tutorial.ts:163-184 | without a declaration the input is returned unchanged on every target |
| Patcher.PatchIsReplace | pxtlib/tutorial.ts:163-181 | on an arcade target with a match, the output is `ReplaceAll`: every declaration replaced by the replacement computed from the first declaration's body |
| Patcher.ReplaceFromFirst | pxtlib/tutorial.ts:172-180 | the global `replace` from an index keeps the text up to the first occurrence of the shape, puts the replacement in its place and goes on after its `}` |
| Patcher.ReplaceFromNone | pxtlib/tutorial.ts:172-180 | with no occurrence of the shape from an index on, the global `replace` keeps the rest of the text |
| Patcher.PatchReplacesFirst | pxtlib/tutorial.ts:163-181 | on an arcade target, with the first occurrence of the shape at `i` and its body between `{` and `}`: the text before `i` is kept, the declaration becomes the namespace block of the body's referenced names or nothing when there are none, and every later declaration gets the same replacement |
| Patcher.PatchDeletesEvery | pxtlib/tutorial.ts:179-181 | when the first declaration names only built-in kinds, the output is the text before it followed by the rest with every declaration deleted |
| Patcher.DeleteKeepsRest | pxtlib/tutorial.ts:180 | deleting every declaration keeps the rest of the text in order and never lengthens it |
| Patcher.DeletingAfterPrefix | pxtlib/tutorial.ts:180 | keeping the text before a declaration and deleting every declaration from its end on gives a strictly shorter subsequence of the input |

## Left out

- Fence scanning (pxtlib/tutorial.ts:10) is not modelled as a regex. `ParseTutorial` receives the fences the pattern finds, in order. One quirk goes with it: the closing fence of a block with an unrecognised language can be read again as an opening fence.
- The normalisation `replace(/((?!.)\s)+/g, "\n")` (pxtlib/tutorial.ts:15) only changes what the scanner sees, so it is left out with the scanner.
- Line terminators other than `\n` are not modelled. `\r`, U+2028 and U+2029 are ordinary characters for the line split, although JavaScript's `^`, `$` and `.` treat them as line ends.
- `[^#]` in the heading patterns can match a line break, which is not modelled. A heading is `#`s followed by one non-`#` character on the same line.
- The two image-literal rewrites of `highlight` (pxtlib/tutorial.ts:128-129) are the parameter `collapse`, because they are cosmetic greedy rewrites.
- The DOM is not modelled. `HTMLPreElement` is the class `Pre`, whose child nodes are `Segment`s; a span is `Highlighted`, since `Highlight` is already the method's name. `textContent` is the concatenation of the children.
- `pxt.debug` logging is not modelled. The conflict message becomes the `ambiguous` flag, and the "not found" message is dropped.
- The project-name constants are the `Editor` datatype.
- Patcher.PatchArcadeSnippets: `$` patterns (`$&`, `$1`, ...) in the replacement string are not interpreted. A name that holds `$` is inserted literally, whereas JavaScript would expand it.
- Patcher.PatchArcadeSnippets: its own contract states only the off-target case. The arcade-target behaviour is stated by `PatchReplacesFirst`, `NoDeclarationUnchanged` and `PatchDeletesEvery`. That the built-in-only case only deletes follows from `PatchDeletesEvery` and `DeletingAfterPrefix` together. It is not restated as one lemma about the patch's output, whose proof is too costly for the verifier.
- Steps.WithContent: `hasHint` is a boolean. In JavaScript `blockSolution && blockSolution.length > 1` (pxtlib/tutorial.ts:117) is `undefined` without a hint and `""` for an empty stripped hint; both are falsy, so the model's `false` stands for them.
- Steps.InitialInfo: the record pushed at pxtlib/tutorial.ts:85-89 has only the three flags. The model's record always has every field, so `headerContentMd` and `contentMd` start as `""`, `blockSolution` as `None` and `hasHint` as `false` until the completion loop sets them.
- Steps.WithContent, Title.ParseTutorialTitle: strings are sequences of code points, whereas JavaScript strings are sequences of UTF-16 code units. Lengths and single-character patterns therefore differ on characters outside the Basic Multilingual Plane. For content `Do\n```ghost\nx\n```😀` the stripped hint is the emoji, of length 2 in JavaScript (so `hasHint` holds) but 1 here. For the line `#😀 T`, JavaScript's `[^#]` takes only the first half of the surrogate pair and the title starts with the lone second half, while here the title is ` T`.
