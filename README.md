# math-editor: the conversion and formula-editing core in Dafny

A model of the core of math-editor, a React rich-text editor built on Quill
that stores formulas as LaTeX. The model covers these parts:

- **HTML → Markdown** (`JsText`, `Turndown`, `MathsPreview`, `PlainPreview`).
  Both preview components register custom Turndown rules and trim the
  result:
  - the maths page registers underline, formula (inline `$…$` or block
    `$$…$$` by a keyword-prefix test), pending-upload image, and image with
    name;
  - the plain page registers underline, and a formula rule that always
    emits a block.

  Turndown itself is an uninterpreted `Engine`. Modelled: rule order,
  `addRule`'s precedence, the blank-element check, and the flanking
  whitespace put back around each element's replacement. Everything else,
  including which whitespace flanks an element, is a parameter.
- **Preview segmentation** (`DollarScan`, `MathsPreview`, `PlainScanner`).
  - The maths preview splits the Markdown with the lazy pattern
    `(\$\$[\s\S]*?\$\$)`. It shows odd segments as blocks and the others
    line by line.
  - The plain preview splits on `\n` and scans each line with the global
    regular expression `/\$\$([\s\S]+?)\$\$/g`. `PlainScanner.ScanLine`
    is that `while (exec)` loop, proved against the recursive reference
    `PartsFrom`.
- **Uploaded images in the renderer** (`MarkdownRenderer`).
  - It extracts `upload-img-…` targets with `/!\[[^\]]*\]\((upload-img-[^)]+)\)/g`
    and removes duplicates as a `Set` does, keeping first-occurrence order.
  - It requests a URL only for names whose cache entry is falsy.
  - The cache is a class whose `urls` map is updated key by key.
  - The `img` decision gives loading, not found, or the picture.
- **Saving a formula** (`FormulaInsert`, `Editors`).
  - The typed LaTeX is cleaned and prefixed with `\displaystyle` when it
    holds a large operator.
  - `FormulaInsert.FormulaOffset` is the offset loop over the Quill delta,
    proved equal to the reference `Off` and then to the position of the k-th
    formula with non-empty LaTeX (`ItemPosition`).
  - The Quill document is a class with `deleteText`, `insertEmbed`,
    `insertText` and `setSelection`.
  - Both editor components are classes. They differ only in whether saving
    clears `editingLatex`.

Behaviour of the code worth knowing:

- The URL cache is never cleared when the Markdown changes.
- An entry recorded as `null` or `""` is falsy, so it is requested again on
  the next run.
- There is no inline single-`$` scanner in either preview.
- A formula span whose `data-value` is only whitespace passes the maths
  filter. When Turndown does not judge the span blank, it becomes the empty
  inline formula `$$`. When Turndown judges it blank, the blank rule takes
  it first and no `$$` is produced.
- A formula with an empty `data-value` fails both filters and is left to
  Turndown.

The editors have one consequence worth knowing, under one assumption about
Quill:

- The double-click index counts every formula span. The save loop counts
  an op only when `op.insert.formula` is truthy.
- The model assumes that `getContents()` reports a formula saved with
  empty LaTeX as `{ formula: "" }`, which is falsy. If Quill reports it
  as `{ formula: true }` instead, every formula counts and the two indices
  always agree.
- Under that assumption, any empty formula before the double-clicked one
  makes the edit land past it, never on it
  (`FormulaInsert.EmptyFormulaBeforeShifts`; a two-formula instance is
  `FormulaInsert.EmptyFormulaShiftsOffset`).
- Without an empty formula the two agree either way
  (`FormulaInsert.OffsetIsClickedSpan`, `Editors.EditClickedFormula`).
- Two formulas in one paragraph of the plain editor, with text between
  them, share a line: the closing `$$` of the first, the text, and the
  opening `$$` of the second. The plain preview then shows that text as
  block math (`PlainScanner.AdjacentFormulasShareLine`,
  `PlainScanner.SharedLineIsMath`).

## Model

| member | source | states |
|---|---|---|
| JsText.Trim | src/maths/components/MarkdownPreview.jsx:73 | `trim` returns an infix of the input with no whitespace at either end. Everything dropped is ECMAScript whitespace, and the result is empty exactly when the input is all whitespace |
| JsText.TrimOfTrimmed | src/maths/components/MarkdownPreview.jsx:73 | trimming a string with no whitespace at its ends returns it unchanged |
| JsText.TrimIdempotent | src/maths/components/MarkdownPreview.jsx:73 | `trim` is idempotent |
| JsText.Slice | src/maths/components/Editor.jsx:30 | `slice(start, end)` with both indices inside the string is the infix between them, a negative end counts back from the end, and an empty or reversed range gives "" |
| JsText.SliceClamps | src/maths/components/Editor.jsx:30 | a negative index counts back from the end and stops at 0; an index past the end stops at the end |
| JsText.SliceTwoFromEachEnd | src/maths/components/Editor.jsx:30 | `slice(2, -2)` drops two characters at each end, and leaves "" of a string shorter than four |
| JsText.SplitLines | src/components/MarkdownPreview.jsx:38 | `split('\n')` gives at least one piece, and no piece holds a newline |
| JsText.SplitLinesJoin | src/components/MarkdownPreview.jsx:38 | joining the pieces with `\n` gives the string back, and there is one more piece than there are newlines |
| JsText.SplitLinesNoNewline | src/components/MarkdownPreview.jsx:38 | a string without a newline is one piece |
| JsText.SplitLinesAround | src/components/MarkdownPreview.jsx:38 | the pieces of `a + "\n" + b` are the pieces of `a` followed by those of `b` |
| JsText.FirstPieceIsPrefix | src/components/MarkdownPreview.jsx:38 | the first piece is a prefix of the string |
| JsText.SplitLinesKeepsAbsence | src/components/MarkdownPreview.jsx:38 | a two-character pattern without a newline that is absent from the string is absent from every piece |
| JsText.ContainsInSuffix | src/maths/components/Editor.jsx:34 | an occurrence in a suffix is an occurrence in the whole string |
| JsText.ContainsInPrefix | src/maths/components/Editor.jsx:34 | an occurrence in a prefix is an occurrence in the whole string |
| Turndown.GetAttribute | src/maths/components/MarkdownPreview.jsx:54 | `getAttribute` is present exactly when the attribute is, and then holds its value |
| Turndown.AttributeOrEmpty | src/maths/components/MarkdownPreview.jsx:67-68 | `getAttribute(a) \|\| ''` is the value when present, else "" |
| Turndown.RuleIndex | src/maths/components/MarkdownPreview.jsx:26-71 | the rule that converts a node is the first in precedence order whose filter accepts it; none accepts it when the result is none |
| Turndown.DisjointRulesOrderFree | src/maths/components/MarkdownPreview.jsx:26-71 | when exactly one filter accepts a node, that rule converts it, whatever the order |
| Turndown.RuleConversion | src/maths/components/MarkdownPreview.jsx:26-73 | an element a rule converts gives its flanking whitespace, the rule's replacement of the content (trimmed when flanked), and its trailing whitespace; without flanking whitespace, the replacement alone |
| Turndown.TurndownTrimmed | src/maths/components/MarkdownPreview.jsx:73 | the converted Markdown has no whitespace at either end, and is empty exactly when Turndown's output is all whitespace |
| MathsPreview.RuleChoice | src/maths/components/MarkdownPreview.jsx:26-71 | the four `addRule` calls put the last-added rule first. Each of the four filters is exactly the condition for its rule to convert the node, and no other rule applies otherwise |
| MathsPreview.UnderlineConversion | src/maths/components/MarkdownPreview.jsx:26-29 | a `U` element becomes `_` + its content + `_`, between its flanking whitespace |
| MathsPreview.FormulaConversion | src/maths/components/MarkdownPreview.jsx:32-46 | a formula span becomes `\n$$\n latex \n$$\n` when the trimmed LaTeX starts with a block keyword, else `$latex$`, between its flanking whitespace |
| MathsPreview.BlankFormulaConversion | src/maths/components/MarkdownPreview.jsx:33-44 | a formula span whose value is only whitespace passes the filter, and when Turndown does not judge the span blank it becomes `$$` |
| MathsPreview.BlankSpanConversion | src/maths/components/MarkdownPreview.jsx:33-44 | a formula span Turndown judges blank gets the blank replacement, not the formula rule's output |
| MathsPreview.OtherSpanConversion | src/maths/components/MarkdownPreview.jsx:33-36 | a span the formula filter rejects, including an empty value, is left to Turndown |
| MathsPreview.PendingImageConversion | src/maths/components/MarkdownPreview.jsx:49-58 | an image with `data-upload-id` becomes `![](id)`, and the other image rule does not apply to it |
| MathsPreview.ImageWithNameConversion | src/maths/components/MarkdownPreview.jsx:61-71 | any other image becomes `![alt](src)` with "" defaults, and the pending rule does not apply to it |
| MathsPreview.MarkdownIsTrimmed | src/maths/components/MarkdownPreview.jsx:73 | `htmlToMarkdown`'s result has no surrounding whitespace |
| MathsPreview.BlockLatexExamples | src/maths/components/MarkdownPreview.jsx:7-42 | the test is a prefix test: `\integral` is block, `x+\sum` is not, `\frac{1}{2}` is block, `x^2` is not |
| MathsPreview.BlockLatexStartsWithBackslash | src/maths/components/MarkdownPreview.jsx:7-14 | block LaTeX starts with a backslash |
| MathsPreview.DisplayStyleIsBlock | src/maths/components/MarkdownPreview.jsx:13 | LaTeX starting with `\displaystyle` is block |
| MathsPreview.SplitFrom | src/maths/components/MarkdownPreview.jsx:94 | `split` with a capturing group gives an odd number of segments |
| MathsPreview.SplitConcat | src/maths/components/MarkdownPreview.jsx:94 | the segments concatenate to the Markdown |
| MathsPreview.SegmentBlockIffOdd | src/maths/components/MarkdownPreview.jsx:94-167 | a segment has the block shape exactly when its index is odd, i.e. exactly when it was a match |
| MathsPreview.MatchSegmentsShortest | src/maths/components/MarkdownPreview.jsx:94 | every match closes at the first `$$` after its opening one, since the match is lazy |
| MathsPreview.TextNotBlock | src/maths/components/MarkdownPreview.jsx:167 | text between matches never has the block shape |
| MathsPreview.MatchIsBlock | src/maths/components/MarkdownPreview.jsx:167 | every match has the block shape |
| MathsPreview.LineRows | src/maths/components/MarkdownPreview.jsx:179-181 | one text row per line, in order |
| MathsPreview.TextSegmentRows | src/maths/components/MarkdownPreview.jsx:179-181 | a non-block segment shows one row per newline plus one, none holding a newline, and they join back to the segment |
| MathsPreview.BlockFormulaSegments | src/maths/components/MarkdownPreview.jsx:44-94 | a block formula with no `$$` in its LaTeX splits into a newline, the `$$` block, and a newline |
| MathsPreview.InlineFormulaSegments | src/maths/components/MarkdownPreview.jsx:44-167 | an inline formula with no `$` is one segment and not block-shaped |
| DollarScan.NextDollars | src/components/MarkdownPreview.jsx:55 | the first `$$` at or after a position, and none before it |
| DollarScan.MatchEnd | src/components/MarkdownPreview.jsx:55 | a lazy `$$ body $$` match from `q` closes at the first `$$` that leaves the minimum body, and otherwise there is none |
| DollarScan.FirstMatch | src/components/MarkdownPreview.jsx:55-60 | the leftmost match at or after a position: no match starts before it |
| DollarScan.DollarsAtIsOccurrence | src/components/MarkdownPreview.jsx:55 | the character test for `$$` is an occurrence of `"$$"` |
| DollarScan.DollarsInInfix | src/maths/components/MarkdownPreview.jsx:94 | a `$$` in an infix is a `$$` of the string |
| DollarScan.NoDollarsNoMatch | src/components/MarkdownPreview.jsx:55 | without `$$` there is no match |
| PlainPreview.RuleChoice | src/components/MarkdownPreview.jsx:17-31 | the formula rule comes first and takes formula spans, the underline rule takes `U` elements, and nothing else is taken |
| PlainPreview.UnderlineConversion | src/components/MarkdownPreview.jsx:17-20 | a `U` element becomes `_` + content + `_`, between its flanking whitespace |
| PlainPreview.FormulaConversion | src/components/MarkdownPreview.jsx:22-30 | every formula span becomes `$$\n` + its untrimmed value + `\n$$`, with no inline case, between its flanking whitespace |
| PlainPreview.OtherSpanConversion | src/components/MarkdownPreview.jsx:23-26 | other spans are left to Turndown |
| PlainPreview.MarkdownIsTrimmed | src/components/MarkdownPreview.jsx:33 | the Markdown has no surrounding whitespace |
| PlainScanner.ScanLine | src/components/MarkdownPreview.jsx:55-65 | the `exec` loop returns the reference parts. They rebuild the line exactly, alternate text and math with text at both ends (2·matches + 1 parts), and every math part is non-empty |
| PlainScanner.PartsFromSource | src/components/MarkdownPreview.jsx:60-65 | the parts from a position rebuild the suffix from there |
| PlainScanner.PartsFromAlternate | src/components/MarkdownPreview.jsx:55-65 | the parts alternate text and non-empty math, with an odd count |
| PlainScanner.PartsFromStep | src/components/MarkdownPreview.jsx:61-63 | one round pushes the text before the match and the captured math, then resumes at `lastIndex` |
| PlainScanner.MatchSource | src/components/MarkdownPreview.jsx:55-63 | the text before a match, `$$`, the capture, `$$` and the rest rebuild the suffix. The match spans at least five characters, so `lastIndex` strictly increases |
| PlainScanner.SourceCons | src/components/MarkdownPreview.jsx:61-62 | a text part and a math part contribute their text and `$$` + math + `$$` |
| PlainScanner.AlternatesCons | src/components/MarkdownPreview.jsx:61-62 | pushing text then non-empty math keeps the alternation |
| PlainScanner.AbsentFromParts | src/components/MarkdownPreview.jsx:61-65 | a character missing from the source is missing from every part |
| PlainScanner.ScannedLineShown | src/components/MarkdownPreview.jsx:38-65 | a scanned line without newlines keeps every math part on that line |
| PlainScanner.PreviewLines | src/components/MarkdownPreview.jsx:38-68 | one row per `split('\n')` line, each the scanner's parts, which rebuild the line and keep every math part within it |
| PlainScanner.PlainLine | src/components/MarkdownPreview.jsx:55-65 | a line without `$$` is a single text part |
| PlainScanner.FormulaOutputLines | src/components/MarkdownPreview.jsx:29-38 | the formula rule's output splits into `$$`, the value's lines, and `$$` |
| PlainScanner.FormulaOutputHasNoBlockMath | src/components/MarkdownPreview.jsx:29-55 | the output of one formula on its own, whose value has no `$$`, yields no math part: each of its lines is a single text part |
| PlainScanner.AdjacentFormulasShareLine | src/components/MarkdownPreview.jsx:29-38 | two formulas with text `t` between them split into `$$`, the first value's lines, `$$` + t + `$$`, the second value's lines, and `$$` |
| PlainScanner.SharedLineIsMath | src/components/MarkdownPreview.jsx:55-65 | the shared line `$$ and $$` scans as empty text, the math " and ", and empty text |
| MarkdownRenderer.FindChar | src/maths/components/MarkDownRenderer.jsx:45 | the first index holding a character, and none before it |
| MarkdownRenderer.ImageMatchAt | src/maths/components/MarkDownRenderer.jsx:45 | the match starting at a position exists exactly when the pattern matches there. Its `]` and `)` are the first after `![` and `(` |
| MarkdownRenderer.FirstImage | src/maths/components/MarkDownRenderer.jsx:45-46 | the match searched for at a position starts there or later and lies within the string, and no match starts before it |
| MarkdownRenderer.FirstImageSound | src/maths/components/MarkDownRenderer.jsx:45-46 | the match found is the pattern's match at its start, so the search returns the leftmost match |
| MarkdownRenderer.MatchesFrom | src/maths/components/MarkDownRenderer.jsx:46 | `matchAll`'s matches lie after the starting position, in order and without overlap |
| MarkdownRenderer.MatchesTail | src/maths/components/MarkDownRenderer.jsx:46 | the first match is the leftmost one, and the rest are what `matchAll` finds from the end of it |
| MarkdownRenderer.MatchesChained | src/maths/components/MarkDownRenderer.jsx:46 | each match is the leftmost one after the previous match, and after the last there is none |
| MarkdownRenderer.MatchesSound | src/maths/components/MarkDownRenderer.jsx:45-46 | every match `matchAll` returns is the pattern's match at its start |
| MarkdownRenderer.MatchesGapless | src/maths/components/MarkDownRenderer.jsx:46 | `matchAll` skips no match: none before the first, between two found, or after the last, and none at all when it finds none |
| MarkdownRenderer.MatchesNoneBefore | src/maths/components/MarkDownRenderer.jsx:46 | when `matchAll` finds nothing there is no match anywhere; otherwise none starts before the first found |
| MarkdownRenderer.MatchesNoneBetween | src/maths/components/MarkDownRenderer.jsx:46 | no match starts between the end of one match found and the start of the next |
| MarkdownRenderer.MatchesNoneAfter | src/maths/components/MarkDownRenderer.jsx:46 | no match starts after the last match found |
| MarkdownRenderer.Captures | src/maths/components/MarkDownRenderer.jsx:47 | one capture per match, in order |
| MarkdownRenderer.CaptureIsToken | src/maths/components/MarkDownRenderer.jsx:45-47 | a capture is `upload-img-`, at least one more character, and no `)` |
| MarkdownRenderer.FilenamesAreTokens | src/maths/components/MarkDownRenderer.jsx:45-47 | every extracted name is a token and occurs as an image target `](name)` in the Markdown |
| MarkdownRenderer.TargetOccurs | src/maths/components/MarkDownRenderer.jsx:45 | the capture sits between the match's `](` and its `)` |
| MarkdownRenderer.IndexOf | src/maths/components/MarkDownRenderer.jsx:48 | the first occurrence of a member |
| MarkdownRenderer.Dedup | src/maths/components/MarkDownRenderer.jsx:48 | `[...new Set(xs)]` has the same members as `xs` and no repeats |
| MarkdownRenderer.DedupOrder | src/maths/components/MarkDownRenderer.jsx:48 | the names are kept in first-occurrence order |
| MarkdownRenderer.PublicUrl | src/maths/components/MarkDownRenderer.jsx:26-58 | the recorded value is the first signed URL when the list is present and non-empty, and `null` otherwise or on failure |
| MarkdownRenderer.KeepNeeding | src/maths/components/MarkDownRenderer.jsx:50-51 | the names kept are exactly those whose cache entry is falsy |
| MarkdownRenderer.KeepNeedingDistinct | src/maths/components/MarkDownRenderer.jsx:50-51 | filtering keeps names distinct |
| MarkdownRenderer.RequestsExactly | src/maths/components/MarkDownRenderer.jsx:45-52 | one run requests each name at most once, exactly the names of the Markdown with falsy entries, and only tokens |
| MarkdownRenderer.ImageUrlCache.RequestsFor | src/maths/components/MarkDownRenderer.jsx:50-52 | the `forEach` issues the requests `Requests` describes: distinct, exactly the extracted names with falsy entries |
| MarkdownRenderer.ImageUrlCache.Settle | src/maths/components/MarkDownRenderer.jsx:53-58 | a settled request records its value for that name and keeps every other entry |
| MarkdownRenderer.ImageUrlCache.constructor | src/maths/components/MarkDownRenderer.jsx:35 | the cache starts empty |
| MarkdownRenderer.Normalize | src/maths/components/MarkDownRenderer.jsx:70 | one leading `./` or `/` is removed, and nothing else |
| MarkdownRenderer.NormalizeOneLayer | src/maths/components/MarkDownRenderer.jsx:70 | only one layer goes: `//x` → `/x`, `.//x` → `/x`, and `../x` is unchanged |
| MarkdownRenderer.ImgFor | src/maths/components/MarkDownRenderer.jsx:70-81 | for an upload source: loading exactly when absent from the cache, not found exactly when `null`, else the cached URL. Any other source is shown as is |
| MarkdownRenderer.TokenNormalizesToItself | src/maths/components/MarkDownRenderer.jsx:45-71 | an extracted token is its own normalised key |
| MarkdownRenderer.SettledView | src/maths/components/MarkDownRenderer.jsx:53-79 | after a token settles it is no longer loading. It is not found exactly when no URL came back, else it shows that URL |
| MarkdownRenderer.ResolvedNotRequested | src/maths/components/MarkDownRenderer.jsx:51 | a name with a non-empty URL is never requested again |
| MarkdownRenderer.FailedRequestedAgain | src/maths/components/MarkDownRenderer.jsx:51-57 | a name recorded as `null` is requested again on the next run |
| FormulaInsert.CleanLatex | src/maths/components/Editor.jsx:28-31 | the cleaned LaTeX has no surrounding whitespace. When the trimmed input starts and ends with `$$` it is the part between the two delimiters, trimmed again ("" when the delimiters overlap); otherwise it is the trimmed input |
| FormulaInsert.CleanStripsOneLayer | src/maths/components/Editor.jsx:29-31 | only one `$$` layer is removed |
| FormulaInsert.CleanTrimsInside | src/maths/components/Editor.jsx:30 | whitespace inside the delimiters is trimmed too |
| FormulaInsert.CleanDelimitersOnly | src/maths/components/Editor.jsx:29-30 | `$$` alone cleans to "" because start and end overlap |
| FormulaInsert.FinalLatex | src/maths/components/Editor.jsx:34-35 | `\displaystyle ` is prepended exactly when `\sum`, `\int`, `\prod` or `\lim` occurs anywhere; otherwise the cleaned LaTeX is kept |
| FormulaInsert.LargeOperatorPreviewedAsBlock | src/maths/components/Editor.jsx:35 | LaTeX with a large operator starts with `\displaystyle`, trims to itself, and so the maths preview classifies it as block |
| FormulaInsert.DisplayStyleNotIdempotent | src/maths/components/Editor.jsx:35 | saving saved LaTeX again adds a second `\displaystyle ` |
| FormulaInsert.PrefixedShape | src/maths/components/Editor.jsx:35 | the prefixed LaTeX has no surrounding whitespace and starts with `\displaystyle` |
| FormulaInsert.FormulaOffset | src/maths/components/Editor.jsx:39-50 | the loop with `formulaCount` from -1 and `break` computes the reference offset `Off` |
| FormulaInsert.ItemPositionFinds | src/maths/components/Editor.jsx:43-50 | below the count, the position holds a formula with non-empty LaTeX with exactly k such before it; otherwise it is the document length |
| FormulaInsert.OffIsItemPosition | src/maths/components/Editor.jsx:43-50 | the loop's offset depends only on the document, not on how text is grouped into ops |
| FormulaInsert.OffsetLocatesFormula | src/maths/components/Editor.jsx:43-50 | with k below the number of formulas that count, the offset is that k-th formula; otherwise it is the total length |
| FormulaInsert.CharsThenRest | src/maths/components/Editor.jsx:49 | a string insert advances the offset by its length and adds no formula |
| FormulaInsert.Deleted | src/maths/components/Editor.jsx:52 | `deleteText` removes the clamped range, and nothing past the end |
| FormulaInsert.Inserted | src/maths/components/Editor.jsx:53-54 | an insert puts the items at the clamped index and keeps the rest |
| FormulaInsert.QuillDocument.ReplaceAt | src/maths/components/Editor.jsx:52-55 | delete one item at the offset, insert the formula and one space, and put the cursor at offset + 2 |
| FormulaInsert.QuillDocument.InsertAtCursor | src/maths/components/Editor.jsx:57-60 | the formula and one space at the cursor, and the cursor at index + 2 |
| FormulaInsert.ReplaceSteps | src/maths/components/Editor.jsx:52-54 | the three edits together give `Replaced` |
| FormulaInsert.Replaced | src/maths/components/Editor.jsx:52-54 | inside the document, the item at the offset becomes the formula followed by a space and the rest is kept. Past the end, both are appended |
| FormulaInsert.EditKeepsPosition | src/maths/components/Editor.jsx:43-54 | editing the k-th formula with non-empty LaTeX leaves it the k-th formula at the same place, with the count unchanged |
| FormulaInsert.EditEmptyDropsFormula | src/maths/components/Editor.jsx:43-54 | saving empty LaTeX over a formula leaves one counted formula fewer |
| FormulaInsert.ReplacedCount | src/maths/components/Editor.jsx:52-54 | the edit removes the old item's count and adds the new formula's |
| FormulaInsert.SaveFormula | src/maths/components/Editor.jsx:38-60 | with an editing index, the k-th formula is replaced and the cursor follows the space. Without one, the formula and a space go in at the cursor |
| FormulaInsert.CustomFormulaIsBlock | src/maths/components/Editor.jsx:72 | the fixed custom formula is previewed as block |
| FormulaInsert.InsertCustomFormula | src/maths/components/Editor.jsx:69-77 | the fixed formula and a space at the cursor, and the cursor at index + 2 |
| FormulaInsert.SpanPosition | src/maths/components/Editor.jsx:113-114 | the position of the k-th formula span lies within the document |
| FormulaInsert.SpanPositionFinds | src/maths/components/Editor.jsx:113-114 | the double-click index's position holds a formula span with exactly k spans, empty ones included, before it; past the last span it is the end |
| FormulaInsert.OffsetIsClickedSpan | src/maths/components/Editor.jsx:43-134 | without empty formulas, the save loop's offset is the double-clicked span |
| FormulaInsert.EmptyFormulaShiftsOffset | src/maths/components/Editor.jsx:45-113 | when an empty formula's op is falsy, it shifts the loop away from the clicked span: the second span is at 1, but the offset is 2 |
| FormulaInsert.ItemPositionMonotone | src/maths/components/Editor.jsx:40-50 | looking for a later counted formula never moves the offset back, and moves it forward while there is one to find |
| FormulaInsert.OffsetNotBeforeClickedSpan | src/maths/components/Editor.jsx:40-114 | the save loop's offset is never before the double-clicked span |
| FormulaInsert.SkippedFormulaShifts | src/maths/components/Editor.jsx:40-114 | a formula span the loop does not count, in front of the rest, puts the offset past the clicked span |
| FormulaInsert.EmptyFormulaBeforeShifts | src/maths/components/Editor.jsx:40-114 | any empty formula before the double-clicked span puts the save offset strictly past that span |
| Editors.MathsEditor.HandleInsertFormula | src/maths/components/Editor.jsx:26-67 | saves as `SaveFormula` says, then the editor is hidden, not editable, with a null index and `editingLatex` "" |
| Editors.MathsEditor.HandleCustomFormula | src/maths/components/Editor.jsx:69-77 | inserts the custom formula at the cursor |
| Editors.MathsEditor.ToggleMathEditor | src/maths/components/Editor.jsx:79-83 | flips visibility and leaves editing mode |
| Editors.MathsEditor.BeginEdit | src/maths/components/Editor.jsx:131-137 | a double click opens the editor in editing mode on that span, prefilled with its `data-value` or "" |
| Editors.EditTarget | src/maths/components/Editor.jsx:38 | the edit path is taken exactly when editing is enabled and an index is set, in both editors |
| Editors.MathsEditor.constructor | src/maths/components/Editor.jsx:16-19 | the editor starts hidden, not editable, with no index and "" |
| Editors.PlainEditor.HandleInsertFormula | src/components/Editor.jsx:26-67 | the same save, and the reset keeps `editingLatex` |
| Editors.PlainEditor.HandleCustomFormula | src/components/Editor.jsx:70-78 | inserts the custom formula at the cursor |
| Editors.PlainEditor.ToggleMathEditor | src/components/Editor.jsx:81-85 | flips visibility and leaves editing mode |
| Editors.PlainEditor.BeginEdit | src/components/Editor.jsx:133-139 | a double click opens the editor in editing mode on that span, prefilled with its `data-value` or "" |
| Editors.PlainEditor.constructor | src/components/Editor.jsx:16-19 | the editor starts hidden, not editable, with no index and "" |
| Editors.EditClickedFormula | src/maths/components/Editor.jsx:38-137 | double-clicking a formula and saving replaces that span when there are no empty formulas; the editor is then hidden and not editable, with no index and `editingLatex` "" |

## Left out

- Turndown's own conversion (headings, lists, links, escaping, blank detection, post-processing) is a foreign library. It is a set of uninterpreted functions in `Turndown.Engine`.
- MathsPreview.BlankFormulaConversion: whether Turndown judges a formula span blank is an `Engine` parameter. A span Quill renders for whitespace-only LaTeX (two guard characters around KaTeX's output) is probably blank in the running program, and then it goes to the blank rule (`MathsPreview.BlankSpanConversion`) instead of giving `$$`. Turndown's and KaTeX's code are not part of this model.
- HTML parsing and the DOM are not modelled. The input to the conversion is an already parsed tree.
- Network I/O is left out: `fetchMarkdown`, the HTTP part of `getImagePublicUrl`, `uploadImageToGCP` and `saveMarkdownToGCP`. The resolver's answer is a `Response` parameter.
- Asynchronous completion order and stale closures are left out. `ImageUrlCache.Settle` applies one response at a time, in whatever order they arrive.
- React state, effects and DOM event wiring are left out: hover borders, toolbar configuration, the link prompt, and the Blob download. The state setters are the fields of the editor classes, and a double click is the method `BeginEdit`.
- KaTeX, ReactMarkdown and mathlive rendering are foreign libraries. The model stops at the rows, parts and image decisions they receive.
- Several files are UI glue or bootstrap and are not part of this model: src/components/MathEditor.jsx, src/utils/Editor.js, src/maths/utils/Editor.js, EquationEditor.jsx, src/App.jsx and index.jsx.
- String lengths are counted in characters, not UTF-16 code units. A string outside the Basic Multilingual Plane would have a different JavaScript length.
- FormulaInsert.QuillDocument.DeleteText: Quill also moves the selection when text before it changes. The model leaves the cursor alone, since every save sets it explicitly afterwards. It also ignores Quill's trailing newline and formats.
- FormulaInsert.QuillDocument.Contents: Quill merges adjacent text into one op. The model emits one op per item. `FormulaInsert.OffIsItemPosition` shows the offset is the same for any grouping.
- FormulaInsert.QuillDocument.Contents: it assumes that a formula with empty LaTeX appears in the delta as `{ formula: "" }`, so the save loop does not count it. Quill's embed value code is not part of this model. If Quill reports such a formula as `{ formula: true }`, the shift stated by `FormulaInsert.EmptyFormulaBeforeShifts` and `FormulaInsert.EmptyFormulaShiftsOffset` does not occur.
- Turndown.ConvertNode: the flanking whitespace of an element is an `Engine` parameter of the element alone. Turndown drops leading or trailing ASCII whitespace when a neighbouring sibling already supplies it, and that dependence on siblings is not modelled.
- FormulaInsert.QuillDocument.InsertAtCursor: requires the cursor to lie within the document. Quill guarantees this for `getSelection(true)`.
