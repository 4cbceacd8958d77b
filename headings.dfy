/**
 * Markdown heading lines as the tutorial patterns `^#[^#](.*)$`, `^##[^#](.*)$` and
 * `^###[^#](.*)$` see them in multi-line mode: a line that starts with exactly `n` hashes
 * followed by one character that is not a hash.
 */
module Headings {
  import opened Strings

  /** The lines of a document, as `split('\n')` gives them. */
  function Lines(doc: string): (lines: seq<string>)
    ensures |lines| >= 1
  {
    Split(doc, '\n')
  }

  /** `line` is matched by `^#{n}[^#]`. */
  predicate IsHeading(line: string, n: nat) {
    n < |line| && (forall k :: 0 <= k < n ==> line[k] == '#') && line[n] != '#'
  }

  /** The `(.*)` group of a heading: what follows the hashes and the one non-hash character. */
  function HeadingText(line: string, n: nat): string
    requires IsHeading(line, n)
  {
    line[n + 1..]
  }
}
