# TSV grid editor core, in Dafny

`vscode-d2-txt-editor-extension` opens tab-separated text files in a VS Code
custom editor. The `TsvEditorProvider` class (src/extension.ts) parses the
document into a ragged grid of strings. It renders the grid as an HTML table
in a webview and writes the user's edits back into the text document. This
project models the logic inside that glue:

- **Grid** (`grid.dfy`): the grid mutations of `updateDocument`'s fallback,
  `insertColumn`, `deleteColumn`, `insertRow` and `deleteRow`. They work on a
  `seq<seq<string>>`. The loops of the source are kept as methods, and each
  method is proved equal to a specification function.
- **SortColumn** (`sort.dfy`): `sortColumn`, written as a stable insertion sort
  over an abstract comparator. The header stays first. The model proves that
  the result is a permutation. For a consistent comparator it also proves
  that the result is in order, that the sort is stable, and that sorting
  twice changes nothing. `sortColumn` reads its header flag,
  `treatFirstRowAsHeader`, from the `csv` configuration section
  (src/extension.ts:351-353), while the view reads it from `tsv`
  (src/extension.ts:453-454). `SortRows` takes the flag as a parameter, and
  the mismatch is logged under Findings.
- **CellEdit** (`celledit.dfy`): `updateDocument`'s targeted single-cell edit.
  The offset loop is modelled, and the model proves that the span holds exactly
  the old cell and that replacing it re-joins the line. It also models the
  choice between a patch, a rebuild and the `TypeError` thrown for negative
  coordinates.
- **ColumnAnalysis** (`columns.dfy`): `computeColumnWidths` on an array, and the
  all-items-must-match `estimateColumnDataType` with its five flags.
- **HtmlEscape** (`html.dfy`) and **ColumnColors** (`palette.dfy`): `escapeHtml`
  with a decoder proving it reversible, and `getColumnColor` with its two
  12-entry palettes.
- **VirtualFeed** (`feed.dfy`): the virtual-scroll partition in
  `generateHtmlContent`. The first 1000 rows are rendered eagerly and the rest
  become chunks of up to 1000 rows. The webview's chunk queue is a class
  (`ChunkFeed`) consumed with `shift`.
- **Selection** (`selection.dfy`): the webview script's selection and editing
  state machine, as class `GridView`. It covers:
  - mouse drags by cell, row or column, and shift-click;
  - select-all and arrows;
  - Enter, Tab and Escape while editing;
  - typing to start an edit;
  - copying the selected rectangle;
  - the host's `updateCell` message.

  The table is a map from `data-row`/`data-col` coordinates to cell text, which
  stands in for `querySelector`.
- **TestHelpers** (`testhelpers.dfy`): the helper copies in
  src/test/integration.test.ts and src/test/performance.test.ts:
  - `parseTsv`/`serializeTsv` and their round trip;
  - `computeColumnWidths`;
  - the divergent majority-vote `estimateColumnDataType` with its 100-value cap;
  - `isDate`;
  - the chained-`replace` `escapeHtml`, proved equal to the provider's one-pass
    escape.
- **JsStrings** (`strings.dfy`) and **Wrappers** (`wrappers.dfy`): JavaScript's
  `split`, `join`, `trim`, `trimStart`, `trimEnd` and `toLowerCase` over
  `seq<char>`, and an `Option` type.

The JavaScript parsers (`Date.parse`, `Number`, `Number.isInteger`,
`parseFloat`/`localeCompare`) are parameters: function-valued fields of
`ColumnAnalysis.JsParsers` and `TestHelpers.TestParsers`, and the comparator
of `SortColumn.Order`. The grid that `Papa.parse` produces is a parameter too,
and so is whether the host accepts an edit.

## Model

| member | source | states |
|---|---|---|
| Grid.SetCell | src/extension.ts:259-268 | after the fallback, the grid has at least `row+1` rows and row `row` has at least `col+1` cells, with `value` at `[row][col]`; every other row and cell is the old one (missing ones read as empty) |
| Grid.Grown | src/extension.ts:262-264 | the grid is padded with empty rows up to `row+1` rows and keeps the old rows |
| Grid.GrowAndAssign | src/extension.ts:259-268 | the two `push` loops and the assignment compute exactly `SetCell` |
| Grid.GrowRows | src/extension.ts:262-264 | the row-pushing loop alone computes `Grown`; this is the path taken when the column is negative and the row is past the end |
| Grid.SetCellReads | src/extension.ts:259-268 | read raggedly, the fallback changes the edited cell and no other |
| Grid.SetCellIdempotent | src/extension.ts:259-268 | applying the same fallback edit twice equals applying it once |
| Grid.PadRow | src/extension.ts:305-309 | a row is padded with `''` up to `index` cells and keeps its old cells |
| Grid.InsertCell | src/extension.ts:304-311 | the row gets length one more than the larger of its length and `index` with `''` at `index`; earlier cells are kept (padding is `''`) and later cells move right by one |
| Grid.InsertColumn | src/extension.ts:304-311 | every row becomes `InsertCell` of its old self and the row count is unchanged |
| Grid.DeleteCell | src/extension.ts:330-334 | the cell at `index` is removed only from rows that have it; shorter rows are unchanged |
| Grid.DeleteColumn | src/extension.ts:330-334 | every row becomes `DeleteCell` of its old self and the row count is unchanged |
| Grid.DeleteAfterInsertCell | src/extension.ts:304-334 | `deleteColumn(i)` after `insertColumn(i)` leaves each row padded to `i` cells |
| Grid.DeleteAfterInsertRestores | src/extension.ts:304-334 | for a row that already reaches `index`, deleting the inserted column gives back the row |
| Grid.MaxWidth | src/extension.ts:409 | the width is at least every row's length, equals some row's length, and is 0 for no rows |
| Grid.Blanks | src/extension.ts:410 | `Array(n).fill('')` has `n` cells, all `''` |
| Grid.BlankRows | src/extension.ts:411-415 | the padding rows all equal one blank row of the given width |
| Grid.InsertRowAt | src/extension.ts:409-416 | the grid length becomes `max(n, index) + 1`; the new row and every padding row are blank with the old maximum width; rows before `index` are kept and rows after it move down by one |
| Grid.InsertRow | src/extension.ts:409-416 | the padding loop and `splice` compute exactly `InsertRowAt` |
| Grid.DeleteRowAt | src/extension.ts:435-437 | row `index` is removed exactly when `index < n`; otherwise the grid is unchanged |
| Grid.DeleteAfterInsertRow | src/extension.ts:409-437 | `deleteRow(i)` after `insertRow(i)` gives back the grid, followed by the padding rows when `i` was past the end |
| Grid.InsertionsKeepCells | src/extension.ts:304-416 | inserting a row or a column never loses a cell; each old cell can be read at its shifted position |
| SortColumn.Insert | src/extension.ts:359-380 | inserting a row into the sorted prefix adds exactly that row (as a multiset) |
| SortColumn.Sort | src/extension.ts:359-380 | the sort keeps the length and is a permutation |
| SortColumn.SortRows | src/extension.ts:359-380 | with the header flag and rows present, row 0 stays first and the body is a permutation of the old body; without the flag, all rows are permuted; with the flag and no rows, the result is one empty row |
| SortColumn.RowOrder | src/extension.ts:367-378 | a consistent key comparator gives a total, transitive row order in both directions |
| SortColumn.InsertSorted | src/extension.ts:359-380 | inserting into sorted rows keeps them sorted |
| SortColumn.SortSorted | src/extension.ts:359-380 | with a consistent comparator, the sorted rows are in order |
| SortColumn.SortKeepsSorted | src/extension.ts:359-380 | rows already in order are left unchanged |
| SortColumn.SortIdempotent | src/extension.ts:359-380 | sorting twice by the same column and direction equals sorting once |
| SortColumn.SortRowsIdempotent | src/extension.ts:359-380 | running `sortColumn` twice with the same column, direction and header flag equals running it once, including the one-empty-row result for a header with no rows |
| SortColumn.InsertTies | src/extension.ts:359-380 | insertion keeps the order of rows that compare equal |
| SortColumn.SortStable | src/extension.ts:359-380 | rows with equal keys keep their relative order (`Array.prototype.sort` is stable) |
| SortColumn.SortRowsOrdered | src/extension.ts:359-380 | the body written back is sorted, and the header stays first |
| SortColumn.HeaderSortedAwayAsWritten | src/extension.ts:351-353 | as written, with the view showing a header and the `csv` flag off, the row shown as the header does not stay first after sorting |
| SortColumn.ShownHeaderStays | src/extension.ts:453-454 | with the view's flag, the row it shows as the header stays first and the rows below it are sorted and permuted; without a header every row is |
| SortColumn.CycleInconsistent | src/extension.ts:367-373 | three keys that each compare before the next, in a cycle, make the comparator inconsistent, so the ordering results do not apply to them |
| SortColumn.DescendingReverses | src/extension.ts:375-378 | descending order reverses the ascending relation, and a missing cell compares as `''` |
| CellEdit.SplitLines | src/extension.ts:237 | `split(/\r?\n/)` yields the `\n`-pieces, with a trailing `\r` removed from every line except the last |
| CellEdit.SplitLinesJoin | src/extension.ts:237 | for text without `\r`, the lines re-join to the text and none holds a `\n` |
| CellEdit.Lead | src/extension.ts:244-247 | the text in front of cell `col` is as long as the computed `startColOffset` |
| CellEdit.JoinAt | src/extension.ts:240-255 | a joined line is the text in front of a cell, then the cell, then the text after it |
| CellEdit.SpanReplace | src/extension.ts:240-255 | the span of the line starting at the offset, as long as `cells[col]`, holds exactly `cells[col]`, and replacing it with `value` gives `Join(cells[col := value])` |
| CellEdit.SpanReplaceResplits | src/extension.ts:240-255 | for a tab-free value, the patched line splits into the old cells with that one cell replaced |
| CellEdit.TargetSpan | src/extension.ts:237-251 | the range the extension computes is the targeted range `TargetOf` of the text, row and column |
| CellEdit.StartColOffset | src/extension.ts:244-247 | the offset loop yields the total length of the earlier cells, each with its separator, which is the length of the line's text before the cell |
| CellEdit.TargetOfSpan | src/extension.ts:237-251 | no range exactly when the row or column is past the end; otherwise the range lies in line `row`, starts after the earlier cells and separators, and covers the old cell |
| CellEdit.UpdateDocument | src/extension.ts:233-279 | a negative row throws; a negative column throws inside the text and grows only the rows past it; otherwise the result is a patch of the target span when it exists and the host accepts it, and otherwise a rebuild with `SetCell` |
| ColumnAnalysis.ColumnMax | src/extension.ts:1199-1209 | the column width bounds every cell of the column; a missing cell counts as `''` |
| ColumnAnalysis.ComputeColumnWidths | src/extension.ts:1199-1209 | there is one width per column of the widest row, and `widths[c]` is the longest cell of column `c` |
| ColumnAnalysis.ColumnMaxStep | src/extension.ts:1202-1207 | one more row raises the width to that row's cell length when the cell is longer |
| ColumnAnalysis.ColumnMaxAttained | src/extension.ts:1199-1209 | a column's width is the length of one of its cells, or 0 |
| ColumnAnalysis.ColumnMaxPositive | src/extension.ts:1199-1209 | a width is positive exactly when some cell of the column is non-empty |
| ColumnAnalysis.WidthsExample | src/test/provider-utils.test.ts:26-34 | the widths of `[['a','bb','ccc'],['dddd','ee','f']]` are `[4,2,3]` |
| ColumnAnalysis.ItemLists | src/extension.ts:1243-1244 | each cell contributes its comma-split, trimmed items |
| ColumnAnalysis.EstimateColumnDataType | src/extension.ts:1241-1282 | the flag-flipping loops return the type `Classify` assigns to the column |
| ColumnAnalysis.ClassifyConcat | src/extension.ts:1241-1282 | two parts of a column with the same type give the whole column that type |
| ColumnAnalysis.ClassifyEmptyNeutral | src/extension.ts:1241-1282 | blank cells, on either side, do not change a column's type |
| ColumnAnalysis.FlagsConcat | src/extension.ts:1243-1265 | each all-items flag holds for a concatenation exactly when it holds for both parts |
| ColumnAnalysis.ClassifyCommaCell | src/extension.ts:1243-1244 | a cell `a,b` is classified like the two cells `a` and `b` |
| ColumnAnalysis.ItemsConcat | src/extension.ts:1243-1244 | the items of two columns are the items of the first, then those of the second |
| ColumnAnalysis.ClassifyBoolean | src/test/provider-utils.test.ts:44 | `['true','FALSE']` is boolean |
| ColumnAnalysis.ClassifyDates | src/test/provider-utils.test.ts:45 | two strings `Date.parse` accepts form a date column |
| ColumnAnalysis.ClassifyIntegers | src/test/provider-utils.test.ts:46 | `['0x1','0x2']` is integer when `Date.parse` rejects them and `Number` reads integers |
| ColumnAnalysis.ClassifyFloats | src/test/provider-utils.test.ts:47 | two numbers, one not an integer, form a float column |
| ColumnAnalysis.ClassifyBlanks | src/test/provider-utils.test.ts:48 | `['','']` is empty |
| ColumnAnalysis.ClassifyStrings | src/test/provider-utils.test.ts:49 | `['hello','1a']` is string when nothing parses `hello` |
| HtmlEscape.EscapeChar | src/extension.ts:1221-1229 | a special character becomes an entity starting with `&`; every other character is kept |
| HtmlEscape.EscapeHtml | src/extension.ts:1221-1229 | the output holds no raw `<`, `>`, `"` or `'` (`Safe`) and is at least as long as the input |
| HtmlEscape.UnescapeEscape | src/extension.ts:1221-1229 | decoding the five entities gives back the original, so nothing is double-escaped |
| HtmlEscape.EscapeConcat | src/extension.ts:1221-1229 | escaping works one character at a time: the escape of a concatenation is the concatenation of the escapes |
| HtmlEscape.EscapeIdentity | src/extension.ts:1221-1229 | escaping changes nothing exactly when the text has no special character |
| HtmlEscape.EscapeShowsLt | src/extension.ts:1221-1229 | a `<` in the input makes `&lt;` appear in the output |
| ColumnColors.Palette | src/extension.ts:1289-1314 | each theme has 12 colours |
| ColumnColors.PalettesAreHex | src/extension.ts:1289-1314 | every palette entry is `#` followed by six hex digits |
| ColumnColors.ColumnColor | src/extension.ts:1287-1320 | the result is a hex colour |
| ColumnColors.ColorPeriodic | src/test/performance.test.ts:98-109 | colours repeat every 12 columns and do not depend on the column type |
| ColumnColors.ColorsDistinct | src/extension.ts:1287-1320 | columns whose indices differ modulo 12 get different colours |
| ColumnColors.ColorExamples | src/test/provider-utils.test.ts:52-63 | the hex values the tests expect for dark and light themes |
| VirtualFeed.Prepare | src/extension.ts:482-486 | an empty grid becomes one empty cell with the header switched off; otherwise grid and flag are kept |
| VirtualFeed.ChunksFrom | src/extension.ts:501-516 | every chunk holds between 1 and 1000 rows |
| VirtualFeed.Partition | src/extension.ts:496-525 | the eager rows are the first `min(n, 1000)`; chunks exist only past 1000 rows; the eager rows followed by the chunks in order give back the row list |
| VirtualFeed.ChunksCover | src/extension.ts:501-516 | the chunks from position `i`, in order, are exactly the rows from `i` on |
| VirtualFeed.ChunkHolds | src/extension.ts:501-516 | chunk `k` is the slice `[i + 1000k, min(i + 1000k + 1000, n))` |
| VirtualFeed.ChunkStartBounds | src/extension.ts:501-516 | a row's chunk starts at most 999 rows before it |
| VirtualFeed.TagAddressesRow | src/extension.ts:503-514 | the `data-row` of every body row addresses that row of the grid (`i + localR`, +1 with a header), and the source's tags carry that same `data-row` |
| VirtualFeed.ChunkRowTag | src/extension.ts:502-504 | row `localR` of chunk `k` is body row `1000(k+1) + localR`, and its `data-row` is the source's `absRow` |
| VirtualFeed.TagLabels | src/extension.ts:539-565 | the corrected gutter label of body row `p` is `p + 1` |
| VirtualFeed.LabelsDistinct | src/extension.ts:539-565 | with the corrected labels, different body rows never share a label |
| VirtualFeed.HeaderTagsAsWritten | src/extension.ts:503-514 | with a header, the source's lazy tags already agree with the corrected ones |
| VirtualFeed.LabelRepeatsAsWritten | src/extension.ts:503-514 | with no header, the source labels body rows 999 and 1000 both `1000` |
| VirtualFeed.ChunkFeed.constructor | src/extension.ts:713-721 | the loader starts with the eager rows shown and all chunks pending |
| VirtualFeed.ChunkFeed.LoadNextChunk | src/extension.ts:722-725 | the next chunk is appended in order and removed from the queue; nothing happens once the queue is empty; shown-then-pending rows never change |
| Selection.CollectRect | src/extension.ts:913-924 | the loops select exactly the existing cells in the inclusive rectangle spanned by anchor and end |
| Selection.RectSymmetric | src/extension.ts:913-924 | the rectangle does not depend on which corner is the anchor, and it contains both corners when they exist |
| Selection.RectSingle | src/extension.ts:913-924 | a click (equal corners) selects that one cell |
| Selection.ColumnRangeIsRect | src/extension.ts:925-936 | a column-range selection is the rectangle from the top row to the bottom row |
| Selection.ArrowTarget | src/extension.ts:1029-1075 | an arrow reaches the neighbouring cell when it exists; a move to a negative row or column, or to a missing cell, is ignored (no target) |
| Selection.ArrowBack | src/extension.ts:1029-1075 | the opposite arrow returns to the starting cell |
| Selection.EnterTarget | src/extension.ts:1082-1088 | Enter while editing opens the `td` directly below exactly when there is one |
| Selection.TabTarget | src/extension.ts:1089-1102 | corrected Tab: a target is the next or previous `td` in the row, and never the gutter column |
| Selection.TabTargetCorrects | src/extension.ts:1089-1102 | the corrected target is the source's target with column `-1` excluded |
| Selection.TabReachesGutterAsWritten | src/extension.ts:1089-1102 | as written, Shift+Tab from column 0 opens the gutter cell at column `-1` |
| Selection.BoundingBox | src/extension.ts:1154-1159 | the box bounds every selected coordinate and is attained on each side |
| Selection.RowValues | src/extension.ts:1162-1168 | a copied line lists the texts of its columns left to right, `''` for missing cells |
| Selection.CopyText | src/extension.ts:1151-1171 | the nested loops build the box's rows top to bottom, each joined with `,` and ended by `\n` |
| Selection.CopyRow | src/extension.ts:1162-1167 | the inner loop collects the texts of row `r` from the box's first to its last column |
| Selection.TerminatedSplit | src/extension.ts:1151-1171 | splitting the copied text at `\n` gives the lines plus one trailing empty piece |
| Selection.CopyReadsBack | src/extension.ts:1151-1171 | for cells free of `,` and `\n`, the clipboard text splits back into the box's cells |
| Selection.GridView.constructor | src/extension.ts:809-1171 | the webview starts with nothing selected, no anchor, no edit, no drag |
| Selection.GridView.Blur | src/extension.ts:1130-1138 | leaving an edit posts `editCell` with the cell's coordinates and text, and ends edit mode |
| Selection.GridView.OpenEditor | src/extension.ts:1121-1141 | `editCell`: reopening the cell being edited does nothing; otherwise the old edit is blurred first and the original text is remembered |
| Selection.GridView.Input | src/extension.ts:1121-1141 | typing in the open editor changes that cell's text only |
| Selection.GridView.MouseDown | src/extension.ts:809-860 | a click on a cell, gutter, header or corner starts the matching drag and selection; Shift-click extends from the anchor |
| Selection.GridView.MouseMove | src/extension.ts:861-891 | during a drag, the selection is the cell, row or column range from the start to the pointer |
| Selection.GridView.MouseUp | src/extension.ts:892-912 | ends the drag; a cell click that did not move sets the anchor and range end to that cell |
| Selection.GridView.SelectAll | src/extension.ts:998-1000 | outside edit mode, Ctrl+A selects every cell, including the corner when there is one |
| Selection.GridView.Copy | src/extension.ts:1151-1171 | with coordinates selected, posts `copyToClipboard` with the trimmed box text; otherwise posts nothing |
| Selection.GridView.Arrow | src/extension.ts:1029-1075 | a plain arrow moves anchor and selection; Shift+arrow keeps the anchor and moves the range end; ignored moves change nothing |
| Selection.GridView.Enter | src/extension.ts:1006-1012 | Enter on a single selected cell starts editing it; while editing, it moves the editor down |
| Selection.GridView.TypeKey | src/extension.ts:1006-1025 | a printable key on a single selected cell opens it with the key as its text |
| Selection.GridView.Tab | src/extension.ts:1089-1102 | Tab moves the editor right, Shift+Tab left, and the editor never reaches the gutter |
| Selection.GridView.Escape | src/extension.ts:1103-1108 | Escape restores the original text and blurs (posting it); in every case the selection is cleared |
| Selection.GridView.SaveKey | src/extension.ts:1077-1081 | Ctrl+S while editing blurs the editor (posting its text) and then posts `save` |
| Selection.GridView.DoubleClick | src/extension.ts:1142-1150 | a double click ends edit mode and clears the selection |
| Selection.GridView.UpdateCell | src/extension.ts:1172-1183 | the host's `updateCell` sets the text of a rendered `td`, and is ignored for a missing cell |
| TestHelpers.KeptLines | src/test/integration.test.ts:17 | the kept lines are non-blank lines of the text, never more than there are lines |
| TestHelpers.KeptLinesOne | src/test/integration.test.ts:17 | a single line is kept exactly when it is not all white space |
| TestHelpers.KeptLinesConcat | src/test/integration.test.ts:17 | the filter works line by line: the kept lines of two parts are those of the first part followed by those of the second |
| TestHelpers.ParseEmptyIffBlank | src/test/integration.test.ts:11-19 | `parseTsv` yields no rows exactly for empty or white-space-only text |
| TestHelpers.ParseEmptyExamples | src/test/integration.test.ts:154-160 | `''` and blank lines parse to `[]` |
| TestHelpers.ParseRowShape | src/test/integration.test.ts:162-171 | every row comes from a kept line and has one more cell than the line has tabs |
| TestHelpers.ParseSerializeParse | src/test/integration.test.ts:258-267 | parse, serialise and parse again give the first parse, extra tabs included |
| TestHelpers.JoinBlank | src/test/integration.test.ts:11-19 | text joined by a white-space separator is blank exactly when every piece is |
| TestHelpers.KeptLinesNone | src/test/integration.test.ts:17 | no line is kept exactly when every line is blank |
| TestHelpers.ColumnWidths | src/test/integration.test.ts:25-41 | `[]` for no rows; otherwise one width per column of the widest row, each the longest cell of its column |
| TestHelpers.DateShape | src/test/integration.test.ts:91-109 | a date is 10 characters with a digit at both ends, so nothing shorter than 8 is a date |
| TestHelpers.Tally | src/test/integration.test.ts:55-73 | the counters never add up to more than the values looked at |
| TestHelpers.EstimateMajority | src/test/integration.test.ts:43-89 | the counting loop with its `break` at 100 values returns `MajorityType` |
| TestHelpers.MajorityMeans | src/test/integration.test.ts:43-89 | for a non-empty column: `'empty'` iff every sampled value is blank; then `'date'`, `'boolean'` and `'number'` each win iff their count exceeds 60% of the sample and no earlier type won; otherwise `'string'` |
| TestHelpers.MajorityCap | src/test/performance.test.ts:41-46 | values after the first 100 never change the answer |
| TestHelpers.MajorityBlank | src/test/performance.test.ts:32-66 | a column of blank values, or no values, is `'empty'` |
| TestHelpers.TallyConcat | src/test/integration.test.ts:55-73 | the counts over two parts add up |
| TestHelpers.EarlyTerminationExample | src/test/performance.test.ts:150-173 | 5 numbers followed by 9995 strings give `'string'` |
| TestHelpers.WorkflowItem | src/test/integration.test.ts:173-203 | the `Item` column is `'string'` |
| TestHelpers.WorkflowPrice | src/test/integration.test.ts:173-203 | the `Price` column is `'number'` |
| TestHelpers.WorkflowInStock | src/test/integration.test.ts:173-203 | the `InStock` column is `'boolean'` |
| TestHelpers.WorkflowDate | src/test/integration.test.ts:173-203 | the `Date` column is `'date'` |
| TestHelpers.ChainedConcat | src/test/integration.test.ts:124-131 | the chain of five `replace` calls works one character at a time |
| TestHelpers.ChainedChar | src/test/integration.test.ts:124-131 | on one character, the chain gives the provider's entity for it |
| TestHelpers.ChainedIsOnePass | src/test/integration.test.ts:124-131 | replacing `&` first makes the chain equal to the provider's one-pass `escapeHtml` |
| TestHelpers.ChainedEscapes | src/test/integration.test.ts:210-218 | the chained escape leaves no raw `<`, `>`, `"` or `'`, shows a `<` as `&lt;`, and decodes back to its input |

## Left out

- VS Code host plumbing: `activate`, the commands, `toggleBooleanConfig`, `resolveCustomTextEditor`'s message dispatch, `refresh`, `handleSave`, `WorkspaceEdit`/`applyEdit` and the clipboard. These are I/O against the host API. Whether the host accepts an edit is a parameter of `CellEdit.UpdateDocument`.
- The `fullRange` of the rebuild (src/extension.ts:270) ends at line `document.lineCount`, one past the last line. It belongs to the host-range code, which is not modelled.
- `Papa.parse`/`Papa.unparse` (quoting, newline detection): the parsed grid is a parameter, and the mutations are modelled on it.
- The `isUpdatingDocument`/`isSaving` flags and the 250 ms debounce: they only order asynchronous events.
- `wrapHtml` and the markup of `generateHtmlContent`, including the chunk HTML strings. Chunks are modelled as their rows. The cells of loaded chunks are not added to `Selection.GridView`'s table.
- DOM effects: focus, `scrollIntoView`, `IntersectionObserver`, `execCommand`, caret placement, the context menu (src/extension.ts:740-807) and the find widget. They have no state the model needs.
- `hslToHex`, the `parseFloat`/`localeCompare` comparator, `Number`, `Number.isInteger` and `Date.parse`: floating point and JavaScript parsing. They are parameters, so the provider's `isDate` (src/extension.ts:1234-1236) is `JsParsers.isDate`.
- `getNonce` (randomness) and `getFonts` (system fonts).
- `isValidTsv` (always `true`) and `generateCellHtml` (a template string) in src/test/integration.test.ts.
- The test copies of `getColumnColor` (src/test/integration.test.ts:111-122, src/test/performance.test.ts:98-109) are the same function as the provider's, so they are modelled once, as `ColumnColors.ColumnColor`.
- The tests' property test of widths (src/test/performance.test.ts:142-145) follows from `ColumnAnalysis.ColumnMaxPositive` together with `TestHelpers.ColumnWidths`.
- Selection.GridView.MouseMove: the pointer is always a cell coordinate. Moving over the corner `th` during a drag is not modelled.
- Selection.GridView: `currentSelection` is modelled as a set of elements, not an array, so the order of DOM insertion is not kept.
- ColumnAnalysis.ComputeColumnWidths: requires a non-empty grid. Its only caller passes `Prepare`'s grid, which always has a row.
- ColumnAnalysis.ColumnMax: reads a missing cell as `''`, which is what `(row[i] || '')` gives for strings.
- Selection.GridView.Tab: uses the corrected `TabTarget`, not the source's, so the gutter cell is never opened (see Findings).
- Lengths and offsets are counted in Unicode characters (Dafny's `|s|`), not in the UTF-16 code units of JavaScript's `.length` and of VS Code's `Position.character`. The two counts agree on text inside the Basic Multilingual Plane and differ for characters outside it such as emoji (the cell `😀` has width 2 in the source and 1 here). Each member this affects has its own line below. `CellEdit.SpanReplace` and `CellEdit.SpanReplaceResplits` do not depend on the unit, because the range and the line are measured in the same unit.
- ColumnAnalysis.ColumnMax: widths are counted in characters, not UTF-16 code units.
- ColumnAnalysis.ComputeColumnWidths: widths are counted in characters, not UTF-16 code units.
- TestHelpers.ColumnWidths: widths are counted in characters, not UTF-16 code units.
- CellEdit.StartColOffset: the offset is counted in characters, not UTF-16 code units.
- CellEdit.TargetSpan: the range's start and end are counted in characters, not in the UTF-16 units of `Position.character`.
- CellEdit.TargetOfSpan: the range's start and end are counted in characters, not in the UTF-16 units of `Position.character`.
- TestHelpers.DateShape: the length tests (`length >= 8` and the length-10 patterns) are counted in characters, not UTF-16 code units.
- SortColumn.Sort: the ordering, stability and idempotence results (`SortSorted`, `SortStable`, `SortIdempotent`, `SortRowsIdempotent`, `SortRowsOrdered`, `ShownHeaderStays`) require a consistent comparator. The source's comparator is consistent when every key in the column parses as a number, or none does. On a column that mixes the two it can form a cycle: `.6` comes before `.x` and `.x` before `0.5` by `localeCompare`, while `0.5` comes before `.6` numerically (`SortColumn.CycleInconsistent`). On such a column the order `Array.prototype.sort` produces depends on the engine, and the insertion sort is only one possible outcome. The permutation results hold for every comparator.
- Selection.GridView.Copy: the source copies each cell's rendered `innerText` (src/extension.ts:1166). Under the cells' `white-space: nowrap` style (src/extension.ts:615) that text has runs of white space collapsed to one space and leading and trailing spaces dropped. The model copies the stored text that edits post and `updateCell` sets, so a cell `a  b` is copied here as `a  b` and by the source as `a b`.
- Selection.CopyRow: collects each cell's stored text, not its rendered `innerText`, for the reason given on the line above.
- Selection.RowValues: the values are the cells' stored texts, not their rendered `innerText`, for the same reason.
- CellEdit.UpdateDocument: the `updateCell` message the host posts back to the view after every update that does not throw (src/extension.ts:277) is not part of `Outcome`. The view's side of it is `Selection.GridView.UpdateCell`.
- VirtualFeed.Tag: the corrected gutter labels are used; the source's labels are `VirtualFeed.TagAsWritten` (see Findings).

## Findings

| source | as written | input that shows it | evidently intended | confidence | as-written member | corrected member |
|---|---|---|---|---|---|---|
| src/extension.ts:503-514 | with no header, lazily loaded rows show `absRow` (0-based) in the row-number gutter, while eager rows show `r + 1` | a grid of 1001 rows and no header: body rows 999 and 1000 are both labelled `1000` | the label of body row `p` is `p + 1` in every chunk | high; not executed | VirtualFeed.LabelRepeatsAsWritten | VirtualFeed.TagLabels |
| src/extension.ts:1089-1102 | Shift+Tab looks up `td[data-col=col-1]` without checking the column, and with the row-number column shown the gutter `td` has `data-col="-1"` | editing cell (1,0) of a grid with a row-number column, then Shift+Tab: the gutter cell (1,-1) is opened, and its blur posts `editCell` with column `-1`, on which `updateDocument` throws (`CellEdit.UpdateDocument`, `Throws`) | Tab never leaves the data columns | medium; not executed | Selection.TabReachesGutterAsWritten | Selection.TabTargetCorrects |
| src/extension.ts:351-353 | `sortColumn` reads `treatFirstRowAsHeader` from the `csv` configuration section, while the view (src/extension.ts:453-454) and the `tsv.toggleHeader` command (src/extension.ts:37-38) use `tsv` | `tsv.treatFirstRowAsHeader` on and `csv.treatFirstRowAsHeader` off, rows `[["bb"], ["a"]]` sorted by length: the row shown as the header, `["bb"]`, is sorted into the body | the header flag the view shows is the one the sort honours | medium; not executed | SortColumn.HeaderSortedAwayAsWritten | SortColumn.ShownHeaderStays |
