# Lexical table grid and markdown transformer fixtures, modelled in Dafny

This project models two pieces of the Lexical rich-text editor as pure
functions and methods over immutable values, and proves properties of them.

1. **`TableNode`** (`packages/lexical-table/src/LexicalTableNode.ts`). This covers:
   - column counting from the cells' column spans;
   - lookup of the rendered cell at given coordinates, with the column clamped
     to the end of the row, and its throwing variants;
   - the row-major search from a table cell to its coordinates;
   - the pruning of `<col>` entries that `exportDOM` performs after export;
   - the width list `updateColgroup` builds;
   - the table's own attributes (row striping, frozen column and row counts,
     column widths): constructor defaults, setters, `clone` (which keeps only
     the key) and the `afterCloneFrom` hook, and their JSON export and import.
2. **The markdown transformer fixtures** of
   `packages/lexical-markdown/src/__tests__/unit/LexicalMarkdown.test.ts`:
   - `MDX_HTML_TRANSFORMER`: its start and end patterns, its `replace` (handle
     a `MyComponent` span as a code block, or defer) and its `export`;
   - `HIGHLIGHT_TEXT_MATCH_IMPORT`: its `$…$` import pattern and its `replace`.

Modules, one file each:

| file | module | contents |
|---|---|---|
| outcomes.dfy | `Outcomes` | `Option` (null/undefined) and `Result` (a thrown error message) |
| table_nodes.dfy | `TableNodes` | rows of cells and other children; `ColumnCount` |
| table_dom_grid.dfy | `TableDomGrid` | the sparse rendered grid; coordinate lookups; cell search |
| table_export.dfy | `TableExport` | table map, cell spans, used columns, `<col>` pruning |
| table_colgroup.dfy | `TableColgroup` | the `<col>` width list |
| table_attributes.dfy | `TableAttributes` | table attributes and their JSON form |
| text.dfy | `Text` | JavaScript string operations and regular-expression building blocks |
| markdown_nodes.dfy | `MarkdownNodes` | text runs, code blocks, root |
| mdx_html_transformer.dfy | `MdxHtmlTransformer` | the MDX embedding transformer |
| highlight_transformer.dfy | `HighlightTransformer` | the highlight text-match transformer |

Helpers the table code calls but that are defined elsewhere become inputs:
- the table map from `$computeTableMapSkipCellCheck` is a grid of
  `MapValue(cellKey, colSpan, startColumn)`;
- the keys read back from the exported cells are a sequence of strings;
- `$getNearestTableCellInTableFromDOMNode` and `$getNearestNodeFromDOMNode`
  are function parameters from DOM elements to nodes.

The start and end patterns of `MDX_HTML_TRANSFORMER` and the import pattern
of `HIGHLIGHT_TEXT_MATCH_IMPORT` are modelled by the leftmost match they
produce, derived by hand from the pattern. The model does not
include a general regular-expression engine.

## Model

| member | source | states |
|---|---|---|
| TableNodes.ColumnCount | packages/lexical-table/src/LexicalTableNode.ts:560-574 | 0 when the table has no rows; otherwise the sum of the column spans of the first row's cells (reference `SpanSum`) |
| TableNodes.SpanSumOnlyCells | packages/lexical-table/src/LexicalTableNode.ts:566-571 | only cells contribute: the count over a row equals the count over its cells alone |
| TableNodes.NonCellAddsNothing | packages/lexical-table/src/LexicalTableNode.ts:567-571 | a non-cell child inserted anywhere in the first row leaves the column count unchanged |
| TableNodes.SpanSumAtLeastCells | packages/lexical-table/src/LexicalTableNode.ts:566-571 | with positive spans, the column count is at least the number of cells in the first row |
| TableDomGrid.DomCellFromCords | packages/lexical-table/src/LexicalTableNode.ts:450-472 | absent row gives null; an in-range x gives that slot; an x at or past the end gives the last slot; negative x or an empty row gives null; any cell found lies in row y |
| TableDomGrid.DomCellFromCordsOrThrow | packages/lexical-table/src/LexicalTableNode.ts:474-486 | throws "Cell not found at cords." exactly when the lookup is null, otherwise returns the same cell |
| TableDomGrid.CellNodeFromCords | packages/lexical-table/src/LexicalTableNode.ts:488-506 | a key exactly when there is a cell at the coordinates and its element resolves to a table cell node, and then that node's key |
| TableDomGrid.CellNodeFromCordsOrThrow | packages/lexical-table/src/LexicalTableNode.ts:508-520 | throws "Node at cords not TableCellNode." exactly when `CellNodeFromCords` is null, otherwise returns the same key |
| TableDomGrid.CordsFromCellNode | packages/lexical-table/src/LexicalTableNode.ts:421-448 | the returned position holds a cell of the target inside the scanned range and no earlier row-major position does; throws "Cell not found in table." exactly when no position matches |
| TableDomGrid.LookupAgreesWithScan | packages/lexical-table/src/LexicalTableNode.ts:421-472 | at every position the search visits, the search's match test holds exactly when the coordinate lookup finds a cell of the target there, so the lookup of the returned coordinates gives back a cell of the searched node |
| TableExport.FirstSpansKeys | packages/lexical-table/src/LexicalTableNode.ts:349-363 | the recorded cell keys are exactly the keys present in the table map |
| TableExport.FirstSpansValues | packages/lexical-table/src/LexicalTableNode.ts:353-362 | each key's recorded span and start column come from its first slot in row-major order |
| TableExport.CellValues | packages/lexical-table/src/LexicalTableNode.ts:347-363 | the nested loop over the table map builds exactly the first-occurrence spans |
| TableExport.KnownColumns | packages/lexical-table/src/LexicalTableNode.ts:365-383 | column c is marked iff some non-empty output key names a recorded cell with start <= c < start + colSpan; deleting keys already seen loses nothing |
| TableExport.KeptIndices | packages/lexical-table/src/LexicalTableNode.ts:389-391 | ascending, duplicate-free, below the column count, and containing exactly the known indices |
| TableExport.PruneCols | packages/lexical-table/src/LexicalTableNode.ts:389-392 | the filtered cols are the original cols at exactly the known indices, in order |
| TableExport.ExportedColumns | packages/lexical-table/src/LexicalTableNode.ts:347-393 | the kept cols are an order-preserving selection of the original cols, never longer than them; column i survives iff an exported cell covers it, judged by each cell's first table-map slot |
| TableColgroup.ColgroupWidths | packages/lexical-table/src/LexicalTableNode.ts:57-77 | exactly colCount columns; column i has a width iff colWidths is set, has an entry i, and that entry is non-zero, and the width is that entry |
| TableAttributes.NewTable | packages/lexical-table/src/LexicalTableNode.ts:225-230 | a new node has no striping, zero frozen columns and rows, and no column widths |
| TableAttributes.SetRowStriping | packages/lexical-table/src/LexicalTableNode.ts:526-530 | sets striping and changes no other table field |
| TableAttributes.SetFrozenColumns | packages/lexical-table/src/LexicalTableNode.ts:532-536 | sets the frozen column count and changes no other table field |
| TableAttributes.SetFrozenRows | packages/lexical-table/src/LexicalTableNode.ts:542-546 | sets the frozen row count and changes no other table field |
| TableAttributes.SetColWidths | packages/lexical-table/src/LexicalTableNode.ts:183-189 | sets the column widths and changes no other table field |
| TableAttributes.AfterCloneFrom | packages/lexical-table/src/LexicalTableNode.ts:195-201 | the node ends with all four table fields of the previous node, whatever it held before |
| TableAttributes.Clone | packages/lexical-table/src/LexicalTableNode.ts:191-193 | `clone` copies only the key: the clone has no striping, zero frozen columns and rows and no widths, whatever the original held |
| TableAttributes.CloneWithProperties | packages/lexical-table/src/LexicalTableNode.ts:191-201 | `clone` followed by `afterCloneFrom` gives a node with all four table fields of the original |
| TableAttributes.ExportJson | packages/lexical-table/src/LexicalTableNode.ts:232-242 | widths copied; striping and each frozen count omitted exactly when false or 0 and otherwise equal to the node's value |
| TableAttributes.UpdateFromJson | packages/lexical-table/src/LexicalTableNode.ts:216-223 | striping true only for a present true; missing counts default to 0; present counts and the widths are copied |
| TableAttributes.ImportJson | packages/lexical-table/src/LexicalTableNode.ts:212-214 | the imported node does not depend on the fields of the node updated: every table field is overwritten |
| TableAttributes.ExportImportRoundTrip | packages/lexical-table/src/LexicalTableNode.ts:212-242 | importing an export restores all four table fields |
| TableAttributes.ImportExportCanonical | packages/lexical-table/src/LexicalTableNode.ts:212-242 | exporting an import gives the input with false striping and zero counts omitted |
| TableAttributes.ExportIdempotent | packages/lexical-table/src/LexicalTableNode.ts:212-242 | a second import and export pass changes nothing |
| Text.RemoveFirst | packages/lexical-markdown/src/__tests__/unit/LexicalMarkdown.test.ts:32-34 | `replace(pattern, '')` returns the input when the pattern is absent; otherwise one fewer copy of the pattern, and re-inserting it at its first index gives the input back |
| Text.RemoveFirstOfPrefix | packages/lexical-markdown/src/__tests__/unit/LexicalMarkdown.test.ts:34 | removing the pattern from a text that starts with it gives the rest |
| Text.SplitJoin | packages/lexical-markdown/src/__tests__/unit/LexicalMarkdown.test.ts:44 | lines joined with a separator none of them contains split back into the same lines |
| MdxHtmlTransformer.MatchStart | packages/lexical-markdown/src/__tests__/unit/LexicalMarkdown.test.ts:39 | the leftmost `<` followed by a word character and later `>`; group 1 is the maximal word run after `<`; group 0 runs to the first `>`; no match when no position qualifies |
| MdxHtmlTransformer.EndMatchAt | packages/lexical-markdown/src/__tests__/unit/LexicalMarkdown.test.ts:38 | an end-tag match is `</`, a non-empty word-character name (group 1), only white space, then `>` |
| MdxHtmlTransformer.MatchEnd | packages/lexical-markdown/src/__tests__/unit/LexicalMarkdown.test.ts:38 | the leftmost end tag; no match when no position qualifies |
| MdxHtmlTransformer.StartTagCapturesName | packages/lexical-markdown/src/__tests__/unit/LexicalMarkdown.test.ts:39 | on `<name attrs>` the match starts at 0 and captures `name` |
| MdxHtmlTransformer.EndTagCapturesName | packages/lexical-markdown/src/__tests__/unit/LexicalMarkdown.test.ts:38 | on `</name  >` the match starts at 0 and captures `name` |
| MdxHtmlTransformer.Replace | packages/lexical-markdown/src/__tests__/unit/LexicalMarkdown.test.ts:40-51 | any tag other than MyComponent defers and leaves the root unchanged; MyComponent is handled by appending exactly one code block (language MyComponent) with one unformatted run 'From HTML: ' + lines joined by newlines |
| MdxHtmlTransformer.Export | packages/lexical-markdown/src/__tests__/unit/LexicalMarkdown.test.ts:30-37 | null exactly when the text does not start with 'From HTML:'; otherwise the text wrapped in MyComponent tags, with the first 'From HTML: ' removed |
| MdxHtmlTransformer.ReplaceThenExport | packages/lexical-markdown/src/__tests__/unit/LexicalMarkdown.test.ts:30-51 | exporting the block an accepting replace appended gives `<MyComponent>` + joined lines + `</MyComponent>` |
| MdxHtmlTransformer.RoundTripRecoversLines | packages/lexical-markdown/src/__tests__/unit/LexicalMarkdown.test.ts:30-51 | for a non-empty list of newline-free lines, the exported text between the tags splits back into the original lines; the empty list is excluded because it exports like `[""]` |
| MdxHtmlTransformer.ForeignTagDefers | packages/lexical-markdown/src/__tests__/unit/LexicalMarkdown.test.ts:39-51 | a `<Foo>` start line is recognised but deferred, root untouched |
| MdxHtmlTransformer.ComponentTagHandled | packages/lexical-markdown/src/__tests__/unit/LexicalMarkdown.test.ts:39-51 | a `<MyComponent>` start line is handled |
| HighlightTransformer.MatchImport | packages/lexical-markdown/src/__tests__/unit/LexicalMarkdown.test.ts:76 | the leftmost `$` followed by a non-`$` with a later `$`; the capture is non-empty, `$`-free, and ends at the next `$`; no match when no position qualifies |
| HighlightTransformer.Replace | packages/lexical-markdown/src/__tests__/unit/LexicalMarkdown.test.ts:77-79 | the text run keeps its text and its format becomes exactly highlight |
| HighlightTransformer.MatchesFirstDollarSpan | packages/lexical-markdown/src/__tests__/unit/LexicalMarkdown.test.ts:76 | with no `$` before a `$content$` span of non-`$` characters, the match is that span and captures content |
| HighlightTransformer.HighlightExample | packages/lexical-markdown/src/__tests__/unit/LexicalMarkdown.test.ts:74-80 | on `a $b$ c` the match starts at index 2 and captures `b` |

## Left out

- DOM rendering and reconciliation are side effects on the DOM, not index or span arithmetic: `createDOM`, `updateDOM`, `getDOMSlot`, the class and attribute helpers (`setRowStriping`, `setFrozenColumns`, `setFrozenRows`, `alignTableElement` on the DOM), the `tbody` wrapping, alignment and `querySelector` steps of `exportDOM`, and its early `null` return for a non-element, and the removal of the `data-temporary-table-cell-lexical-key` attribute from every scanned cell in the `after` hook.
- TableColgroup.ColgroupWidths: the early return when the DOM has no `<colgroup>` is not modelled, because `createDOM` always creates one.
- `$isScrollableTablesActive` and `setScrollableTablesActive` keep editor-global state in a `WeakSet`. `getLatest`, `getWritable`, `$applyNodeReplacement` and the `__DEV__` freeze of the widths are node-versioning mechanics.
- The getters (`getColWidths`, `getRowStriping`, `getFrozenColumns`, `getFrozenRows`) are the datatype's fields.
- Constant answers are not modelled: `getType`, `canBeEmpty`, `isShadowRoot`, `canSelectBefore`, `canIndent`, `importDOM`.
- `extractWithChild` (true exactly for the `html` destination) and the class test `$isTableNode` are not modelled: the model has no export destinations and no class hierarchy.
- `$getElementForTableNode` and `getTable` are not part of this model. The rendered grid is an input.
- `$convertTableElement` is left out. It parses widths with `parseFloat` and with `PIXEL_VALUE_REG_EXP`, and that pattern is not part of this model.
- Numbers are integers. Frozen counts and widths are `int`, so "truthy" means non-zero; fractional values and `NaN` are not modelled. Column spans are `nat`.
- JSON export and import cover only the table's four fields. The element-level fields that `super.exportJSON` and `super.updateFromJSON` handle are not modelled.
- The markdown conversion engine is not part of this model: `$convertFromMarkdownString`, `$convertToMarkdownString`, `TRANSFORMERS`, `LINK`, line dispatch, precedence, escaping, and the headless-editor and HTML test harness. So the `# Hello world` heading case is not modelled.
- `HIGHLIGHT_TEXT_MATCH_IMPORT` takes `trigger`, `regExp`, `export` and `dependencies` from `LINK`, which is not part of this model.
- `MDX_HTML_TRANSFORMER.dependencies` and `type` are plain data. `replace` ignores `endMatch`, and so does the model.
- `setFormat('highlight')` replaces a run's format flags with the single highlight flag. `$createTextNode` starts with no flags, and `$createCodeNode` stores the language it is given. These behaviours belong to Lexical's `TextNode` and `@lexical/code`. They are defined outside `LexicalTableNode.ts` and `LexicalMarkdown.test.ts`, and the model assumes them.
- The regular expressions use ASCII `\w` and the ECMAScript `\s` character set. Only the `exec` result (index, group 0, group 1) is modelled; `lastIndex` and flags are not.
- Strings are sequences of Unicode code points, while JavaScript strings are sequences of UTF-16 code units. Every index and length in the model, including the `index` of a match, counts code points: a character outside the Basic Multilingual Plane before a match shifts the JavaScript index by one more than the model's. Lone surrogates cannot be represented and are not modelled.
- The editor calls `afterCloneFrom` right after `clone` when it copies a node (`$cloneWithProperties`); that framework function is not part of this model, and `TableAttributes.CloneWithProperties` states the combined step.
