# Data lineage viewer — a Dafny model of its core

The data lineage viewer (`test.py`) reads two workbooks. The first is an input
workbook: one sheet per input table, listing the table's columns. The second is an
output workbook. Each of its rows names:

- an output column;
- a record id (`Sor_id`);
- a newline-separated list of `table.column` references;
- a transformation rule;
- a sample value.

From these the viewer builds a lineage index. It then draws one (output sheet,
`Sor_id`) slice as a diagram: input-table blocks on the left, output columns on the
right, and one curve per resolved reference. An embedded script lets the user click
output columns on and off. Each selected column gets a colour from its position in
the selection. That colour is also applied to its curves and the input columns they
start from. Two panels list the rules and the examples of the selected columns.

The project models three parts of that program.

* **Lineage index builder** — `lineage.dfy`, module `Lineage`.
  - The input-table catalog: `lower(sheet name)` maps to its columns, and the last
    sheet wins.
  - The row loop. Each reference cell is split on `\n`. Every token holding a `.` is
    stripped, lower-cased and split at its first `.`. The token is kept when its
    table is in the catalog.
  - References accumulate under the key (sheet, `Sor_id`, output column). A lineage
    entry exists only once some reference of the key has resolved. Rules and
    examples are overwritten on every row.
  - The selection lists derived from the index: output tables, `Sor_id`s, and the
    slice of one selection.
  - Python's insertion-ordered dictionaries become association lists (`assoc.dfy`,
    module `Assoc`). Python's `strip`, `lower` and `split` are in `text.dfy`, module
    `Text`.
* **Layout engine** — `layout.dfy`, module `Layout`.
  - The blocks of the referenced tables, stacked from y = 60. Rows are 35 apart. A
    block is 35·rows + 40 high, with a 60 gap below it.
  - The anchor dictionary `input_positions`. When two ids collide, the later cell
    wins.
  - The output columns at 60 + 35·j.
  - One path per reference whose anchor id was laid out. Its control x is
    `(170 + 720) // 2`.
  - The canvas height.
* **Highlight state machine** — `highlight.dfy`, module `Highlight`.
  - The script's `selectedColumns` becomes a pure reducer: `ToggleCol`, `Step` and
    `Run` over `Toggle` and `Clear` events.
  - The view is derived in full from the selection by `Render`. It holds:
    - output colours `palette[i % 6]`;
    - path visibility and stroke;
    - input highlight colours, where the last selected column linked to an input
      wins;
    - the rule and example panels, trimmed with JavaScript's `trim`.

`scenarios.dfy` (module `Scenarios`) holds small worked examples on concrete data:

- the `customers.name` → `cust_name` slice, its single curve and its rule panel;
- an unknown table being dropped;
- two rows with the same key;
- removing the middle of three selections, which shifts the third column's colour.

Some behaviours of `test.py` are easy to misread. The model follows the code:

- `test.py` creates a lineage entry only once a reference resolves: the append sits
  inside the resolution branch (`test.py:30-34`). An output column none of whose
  references resolve has no lineage entry. It is therefore missing from the
  slice, and its id is missing from `sor_ids` unless another of that id's columns
  resolves; a sheet is missing from `output_tables` only when none of its rows
  resolves (`Lineage.CollectedNonEmpty`,
  `Lineage.OutputTablesOfBuild`). Its rule and example are still recorded
  (`Lineage.RulesForEveryRow`).
- `test.py` stacks the input tables in the iteration order of a Python `set`
  (`test.py:60`), which is not the order in which the references were met. The
  model takes the iteration order as a parameter: any duplicate-free enumeration of
  the referenced tables (`Layout.IsTableOrder`).
- `test.py` lower-cases the whole stripped token, column part included
  (`test.py:32`). As a result, a catalog column with upper-case letters never gets a
  curve, because the anchor id keeps the catalog's spelling while the reference is
  lower-cased. `Scenarios.MixedCaseColumnHasNoPath` shows this.
- `test.py` skips no row: every row of every output sheet is read, whatever its
  cells hold (`test.py:23-36`).

## Model

| member | source | states |
|---|---|---|
| Text.Strip | test.py:25-29 | Python's `str.strip` (and JavaScript's `trim`, with its whitespace set): the result is no longer than the input and, when non-empty, neither starts nor ends with whitespace |
| Text.StripInfix | test.py:25-29 | the stripped text is the infix of the input left once a run of whitespace is cut from each end |
| Text.StripUnique | test.py:25-29 | it is the only such infix that neither starts nor ends with whitespace, so the strip is exactly the input without its leading and trailing whitespace |
| Text.StripChars | test.py:25-29 | stripping keeps only characters of the input, and every non-whitespace one of them |
| Text.Lower | test.py:32 | `str.lower` on ASCII: same length; each capital `A`-`Z` becomes the letter 32 code points further on, its small form, and every other character is kept |
| Text.LowerNoUpper | test.py:32 | no capital survives lower-casing, and a character is kept exactly when it is not a capital |
| Text.LowerIdempotent | test.py:14 | lower-casing an already lower-cased name changes nothing, so catalog keys and lower-cased reference tables compare consistently |
| Text.IndexOf | test.py:113 | `Array.prototype.indexOf`: -1 exactly when the element is absent, otherwise the position of its first occurrence |
| Text.SplitFirst | test.py:32 | `split('.', 1)` on a token holding a dot: the head contains no dot, and head + "." + tail rebuilds the token |
| Text.SplitFirstUnique | test.py:32 | the split at the first dot is the only split into a dot-free head, a dot and a tail |
| Text.Split | test.py:27 | `split("\n")`: at least one piece, no piece contains the separator, and joining the pieces with it gives back the cell |
| Text.SplitJoin | test.py:27 | splitting the join of separator-free pieces gives back exactly those pieces (the inverse direction of the round trip) |
| Assoc.Lookup | test.py:96 | dictionary access: a value is found exactly when the key is present, and the pair found is stored in the dictionary |
| Assoc.ExtendKeys | test.py:34 | the row's `.append((table, col))` calls, one per resolving token and all under the same key, taken together: key order is unchanged for an existing key, and a new key is appended at the end |
| Assoc.ExtendKeepsDistinct | test.py:34 | appending under a key never makes a key occur twice in the dictionary |
| Assoc.ExtendLookup | test.py:34 | after appending `vs` under `k`, looking up `k` gives its old list (empty if new) followed by `vs`, and every other key is unchanged |
| Assoc.Distinct | test.py:42-47 | deduplication: no repeats, and exactly the same elements as the input |
| Lineage.BuildCatalog | test.py:13-16 | the catalog holds exactly the lower-cased names of the input sheets |
| Lineage.CatalogLastSheetWins | test.py:13-16 | when sheet names lower-case alike, the catalog holds the columns of the last such sheet |
| Lineage.DotKept | test.py:31-32 | stripping and lower-casing a token neither creates nor removes a dot, so the `'.' in ref` test on the raw token decides the same as on the cleaned one |
| Lineage.ResolveToken | test.py:30-33 | a token resolves to a reference exactly when its stripped, lower-cased form is `table.column`, split at the first dot, with the table in the catalog; a dot-free token never resolves |
| Lineage.ResolveAll | test.py:30-34 | there are at most as many resolved references as tokens with a dot, each into a catalog table whose name has no dot |
| Lineage.TokenRefsNames | test.py:31-34 | a single token contributes exactly the reference it names |
| Lineage.ResolveAllOne | test.py:30-34 | a one-token list resolves to at most one reference, and to `[ref]` exactly when the token names `ref` |
| Lineage.ResolveAllAppend | test.py:30-34 | resolving two token lists one after the other gives the first's references followed by the second's; with `ResolveAllOne` this fixes the result as one reference per resolving token, in token order, repeats kept |
| Lineage.ResolveAllComplete | test.py:30-34 | every token that names a reference contributes it |
| Lineage.ResolveAllAt | test.py:30-34 | the references of a cell are those of the tokens before token i, then token i's own, then those of the tokens after it |
| Lineage.ResolveAllNamed | test.py:30-34 | every resolved reference is named by one of the cell's tokens |
| Lineage.ReadRow | test.py:25-29 | a row's key is its sheet with the stripped `Sor_id` and the stripped output column; its references are those of its newline-split cell, all into catalog tables; its rule and example are the stripped cells, and a missing rule or example column reads as empty |
| Lineage.StripCell | test.py:28-29 | an optional rule or example cell reads as its strip, or as the empty text when the column is missing; it never starts with whitespace |
| Lineage.ReadRows | test.py:23-24 | one entry per row, in sheet-then-row order, all references resolved into the catalog |
| Lineage.Accumulate | test.py:30-36 | the lineage dictionary has no repeated key, and every key with references also has a rule and an example |
| Lineage.AccumulateResolved | test.py:33-34 | every lineage entry holds at least one reference, each into the catalog |
| Lineage.LookupAt | test.py:96 | with distinct keys, looking up the i-th key gives the i-th value |
| Lineage.LineageIsCollected | test.py:30-34 | the lineage of a key is the concatenation, in row order, of the resolved references of every row with that key (missing when that is empty) |
| Lineage.CollectedNonEmpty | test.py:33-34 | a key has a lineage entry exactly when some row with that key resolved a reference |
| Lineage.RulesForEveryRow | test.py:35-36 | a key has a rule and an example exactly when some row has that key, whether or not any reference resolved |
| Lineage.RulesLastWriteWins | test.py:35-36 | the rule and example of a key are those of the last row with that key |
| Lineage.AccumulateOrder | test.py:30-34 | the lineage keys are listed in the order in which rows first gave them a resolved reference |
| Lineage.NewKeyFirstResolvedLast | test.py:30-34 | a key with a lineage entry resolved before any row resolved a key that has none |
| Lineage.OutputTables | test.py:42 | the output tables are the sheets having a lineage entry, each listed once |
| Lineage.OutputTablesOfEntries | test.py:42 | a sheet is offered as an output table exactly when one of its rows resolved a reference |
| Lineage.OutputTablesOfBuild | test.py:23-42 | the same, stated on the spreadsheet rows themselves: a sheet is offered exactly when one of its rows has a reference cell with at least one resolving token |
| Lineage.SorIds | test.py:47 | the `Sor_id`s offered for a sheet are those of its lineage entries, each once |
| Lineage.SorIdsOf | test.py:47 | a `Sor_id` is listed for a sheet exactly when some lineage key has that sheet and that id |
| Lineage.Slice | test.py:50-53 | the output columns of a selection are exactly those whose (sheet, `Sor_id`, column) key has a lineage entry |
| Lineage.SliceLookup | test.py:50 | each output column of the slice holds the references stored under its full key |
| Lineage.SliceOrder | test.py:50-53 | the slice keeps the order of the index: output column i comes from an earlier index entry than output column j when i < j |
| Lineage.SliceFollowsRows | test.py:30-53 | so output column i is drawn above a later output column j only if its key first received a resolved reference earlier |
| Lineage.ResolvedBeforeAsymmetric | test.py:30-34 | two keys cannot each have first received a resolved reference before the other, and no key before itself |
| Lineage.SliceRowsFollowSlice | test.py:30-53 | the converse: a column whose key first resolved before another's is drawn above it, so the slice order is exactly the order of first resolution |
| Lineage.SliceDistinct | test.py:53 | a slice lists each output column once |
| Lineage.SliceText | test.py:51-52 | the rules (examples) of a selection hold exactly the texts stored under the selection's keys |
| Layout.MakeBlock | test.py:66-75 | a block has one cell per catalog column, and the k-th sits 35·k below the block's first row |
| Layout.StackBlocks | test.py:63-80 | one block per table of the iteration order, in that order |
| Layout.Layout | test.py:60-102 | the scene has one block per referenced table, in the iteration order; output column j of the slice is drawn at y = 60 + 35 j; the canvas height is the larger of the input stack's end and 300 below the row after the last output, plus 300 |
| Layout.StackBlockAt | test.py:66-80 | block i belongs to the i-th table, has one anchor per column at x = 170 with ids `tbl_col`, and the first block starts at y = 60 |
| Layout.StackNextTop | test.py:76-80 | the next block starts 35·rows + 40 + 60 below the previous block's first row |
| Layout.StackShape | test.py:63-80 | the two facts above together, for every block of the stack |
| Layout.StackEndBelowLast | test.py:80 | `current_y` ends at 60 with no table, otherwise one 60-gap below the bottom of the last block |
| Layout.StackEndAtLeast | test.py:80 | `current_y` never ends above where it started |
| Layout.AnchorsIncrease | test.py:70-71 | every anchor is at x = 170, lies between the stack's first row and `current_y` at the end of the loop, and anchors strictly increase in y in stacking order |
| Layout.CellsInsideBlock | test.py:72-77 | each cell's background rectangle (y-15 .. y+5) lies inside its block's rectangle (top-30, height 35·rows+40) |
| Layout.PositionsDomain | test.py:71 | `input_positions` holds an entry exactly for the ids of the laid-out cells |
| Layout.PositionsLastWins | test.py:71 | when ids collide, the anchor stored is that of the last cell with the id |
| Layout.PositionsFromCells | test.py:71 | every stored anchor is the anchor of some cell with that id |
| Layout.LaidOutIds | test.py:66-71 | an id is laid out exactly when it is `tbl_col` for a table of the order and a column of that table |
| Layout.ColumnPathsExactly | test.py:96-101 | an output column's paths are exactly those of its references whose id `tbl_col` is in `input_positions`, from that anchor to (720, y) with control x `(in_x + 720) // 2` |
| Layout.SlicePathsComplete | test.py:86-102 | every reference of every output column whose anchor exists gets its path |
| Layout.SlicePathsSound | test.py:86-102 | every path drawn is the path of some reference of some output column |
| Layout.PathGeometry | test.py:96-101 | in a laid-out scene every path starts at x = 170, ends at x = 720, has control x 445, starts at its input's stored anchor, and ends at the row of an output column that references the input |
| Layout.CanvasCoversAnchors | test.py:82 | the canvas reaches at least 300 below every input anchor and more than 600 below every output row |
| Layout.CellInAllCells | test.py:66-73 | every cell of every block is among the laid-out cells |
| Layout.CellOrigin | test.py:66-73 | every laid-out cell comes from one of the blocks |
| Layout.OneBlockPerTable | test.py:60-66 | each referenced table gets exactly one block, no table gets two, and only referenced tables get one |
| Layout.SliceTablesInCatalog | test.py:61 | every table referenced by a slice of the built index is in the catalog, so `input_table_columns[tbl]` never fails |
| Layout.TableOrderExists | test.py:60-61 | every slice of catalog tables has an iteration order for its referenced tables |
| Layout.Enumerate | test.py:60 | a finite set of table names can be listed once each, in some order |
| Highlight.ToggleCol | test.py:112-118 | toggling appends a column that is absent, removes the first occurrence of one that is present, and leaves the membership of every other column unchanged |
| Highlight.Splice | test.py:115 | `splice(i, 1)`: one element shorter, elements before i unchanged, later ones shifted down by one |
| Highlight.ToggleKeepsDistinct | test.py:112-118 | toggling keeps the selection free of repeats, and the column is selected afterwards exactly when it was not before |
| Highlight.SpliceDistinct | test.py:115 | splicing one element out of a selection without repeats leaves no repeat and no trace of the element |
| Highlight.AppendDistinct | test.py:117 | appending an absent column keeps the selection free of repeats |
| Highlight.RunKeepsDistinct | test.py:109-157 | any sequence of clicks and clears keeps the selection free of repeats |
| Highlight.ToggleTwice | test.py:112-118 | clicking an unselected column twice restores the selection |
| Highlight.WithoutConcat | test.py:115 | removing a column from a concatenation removes it from each part |
| Highlight.SpliceWithout | test.py:115 | cutting a column out between two parts leaves the other columns in order |
| Highlight.ToggleKeepsOthersInOrder | test.py:112-118 | toggling a column never reorders the other selected columns |
| Highlight.RemovalShiftsColors | test.py:115-126 | deselecting the i-th column keeps the slots before it and moves every later column down one slot, so its colour changes |
| Highlight.LastIndexOf | test.py:125-134 | -1 exactly when absent, otherwise the last position holding the column |
| Highlight.StyleOf | test.py:119-132 | a path is visible exactly when its output column is selected, then stroked with that column's slot colour (a palette colour), and otherwise `#999` |
| Highlight.MarkSpec | test.py:130-134 | one selected column marks exactly the inputs of its paths with its colour, and leaves other marks alone |
| Highlight.InputHighlighted | test.py:124-144 | an input is highlighted exactly when some selected column has a path from it |
| Highlight.InputColor | test.py:124-144 | a highlighted input takes the colour of the last selected slot that links to it |
| Highlight.InputColorIsLastLinked | test.py:124-144 | both facts above together: the highlighted inputs and their colours |
| Highlight.PanelContent | test.py:167-176 | the content is empty exactly when no selected column has a rule (example); otherwise it starts with a newline and the marker |
| Highlight.ColumnBlock | test.py:172-175 | a selected column adds nothing when its text is empty, and otherwise a block that starts with a newline and the marker |
| Highlight.PanelContentLast | test.py:169-176 | the content of a non-empty selection ends with the block of its last column |
| Highlight.PanelContentAppend | test.py:169-176 | the content of a concatenation of selections is the content of the first followed by that of the second, so the content lists the blocks of the selected columns in selection order |
| Highlight.PanelOfAppend | test.py:159-180 | selecting one more column shows the trim of the earlier content and the new column's block together, and hides the panel while there is no text at all |
| Highlight.PanelOf | test.py:159-180 | a panel is shown exactly when some selected column has a non-empty text; its text is then the content trimmed by `trim`, and starts with the marker |
| Highlight.TrimMarker | test.py:177 | trimming content that begins with a newline and the marker keeps the marker first |
| Highlight.OneColumnContent | test.py:172-175 | with one selected column, the content is that column's block when it has a text, and empty otherwise |
| Highlight.StripFramed | test.py:177-178 | trimming a body framed by newlines gives back the body when it neither starts nor ends with whitespace |
| Highlight.ShownFramed | test.py:177-178 | a content that is one text line framed by newlines is shown as that line |
| Highlight.SingleColumnPanel | test.py:159-180 | with one selected column whose text is non-empty and does not end in a JavaScript white-space character (U+FEFF included, which Python's strip keeps), the panel shows exactly `marker Output Column: c`, a newline, then `- heading: text` |
| Highlight.Render | test.py:119-144 | the view has the i-th selected column coloured `palette[i % 6]` and exactly the paths of selected columns visible |
| Highlight.EmptySelectionIsBlank | test.py:149-157 | with nothing selected, no output or input is coloured, every path is hidden with stroke `#999`, and both panels are hidden |
| Highlight.ToggleTwiceSameView | test.py:112-147 | clicking an unselected column twice restores the whole view |
| Scenarios.NamedResolves | test.py:30-34 | a token that names a reference whose table is a catalog key resolves to that reference |
| Scenarios.UnknownUnresolved | test.py:33 | a token whose table is not in the catalog is dropped |
| Scenarios.TwoLines | test.py:27-34 | a two-line cell resolves to the references of its first line followed by those of its second |
| Scenarios.TwoEntriesSameKey | test.py:30-36 | two rows with the same key concatenate their references in row order, while the rule and example are the second row's |
| Scenarios.OneRefTables | test.py:60 | a one-reference slice references exactly that reference's table |
| Scenarios.OneRefPaths | test.py:96-102 | a one-reference slice draws one path when the anchor exists and none otherwise |
| Scenarios.SelectOne | test.py:112-132 | selecting one column from nothing colours its paths with the first palette colour |
| Scenarios.OutputSlot | test.py:125-126 | the output column in selection slot i is painted `palette[i % 6]` |
| Scenarios.RemoveMiddle | test.py:112-118 | toggling the middle of three selected columns leaves the outer two in order |
| Scenarios.DropMiddle | test.py:115-126 | the third column's colour moves from slot 2 to slot 1 when the middle column is deselected |
| Scenarios.CustomerNameResolves | test.py:30-34 | `customers.name` resolves to (customers, name) against `{customers: [id, name]}` |
| Scenarios.UnknownTableIgnored | test.py:33 | `unknown_table.x` resolves to nothing |
| Scenarios.MixedCellKeepsKnownTable | test.py:27-34 | a cell holding `unknown_table.x` and `customers.id` keeps only the known reference |
| Scenarios.CustNameAnchor | test.py:69-71 | the anchor of `customers_name` is (170, 95) |
| Scenarios.CustNameLayout | test.py:60-102 | the `cust_name` slice draws exactly one path, from (170, 95) to (720, 60) with control x 445 |
| Scenarios.MixedCaseColumnHasNoPath | test.py:96-98 | against a catalog column spelt `Name`, the lower-cased reference finds no anchor and no path is drawn |
| Scenarios.CustNamePathShown | test.py:112-132 | toggling `cust_name` reveals its path in the first palette colour |
| Scenarios.CustNameRulePanel | test.py:159-180 | toggling `cust_name` shows the rule panel with `direct copy` |

## Left out

- Loading the workbooks (`pd.read_excel`, `test.py:9-10`), `dropna` on catalog columns, and pandas' reading of empty cells as `nan`. Rows arrive already read: a cell is a string, and a missing rule or example column is `None`.
- The Streamlit page (`test.py:39-48`, `232`). The two select boxes become the `sheet` and `sorId` parameters of `Lineage.Slice`.
- Building the SVG, HTML and CSS text (`test.py:72-79`, `91-95`, `102`, `185-229`). This includes the block titles, `svg_width`, `box_width` and the HTML attribute quoting of rules and examples. The model keeps the numbers those strings carry.
- The positions of the rule and example boxes (`test.py:105-106`, `194-195`). They are pure arithmetic on the output column count and nothing reads them back.
- The clipboard buttons (`test.py:74`, `94`). They are a browser side effect.
- Element-lookup details of the embedded script. These are `getElementById` collisions between an output column and an input id, the `.line-${c}` class selector for column names that contain spaces or selector characters, and the `if (elem)` guards. The model assumes every selected column and every highlighted input has its own element.
- The text of a hidden panel. The script still writes it, but nothing displays it.
- Lower-casing beyond ASCII. `Text.Lower` folds only `A`-`Z`, whereas Python's `lower` also folds other letters.
- Python's `set` iteration order (`test.py:60`). The order is a parameter, so the model claims nothing about which order the interpreter picks.
- A missing mandatory column. When an output sheet lacks `Output_columns`, `Sor_id` or `Input_table_col_name`, `row["…"]` raises `KeyError` and the page stops (`test.py:25-27`). `Lineage.Row` makes these three cells mandatory strings, so the model has no such failure. Only the rule and example columns, read with `row.get`, may be missing.
