# Switch-event engine of the temperature scripts, in Dafny

The temperature scripts read a combined data sheet. Row 1 holds the column headers; the rows below hold one reading per row. The digital columns hold pressure-switch states, 0 or 1. The engine modelled here has three parts.

* **Transition detector** (`HighlightSwitchPoints`). It scans every column whose header is not protected. Row 2 seeds the previous value, and the scan runs from row 3 to the last row. A step from 1 to 0 records an OPEN point; a step from 0 to 1 records a CLOSE point.
* **Session registry** (`HighlightRegistry`). It keeps, per column, a list of switch sessions. An OPEN appends a new session. A CLOSE fills the close slot of the most recent session whose slot is still empty, and is dropped when there is none.
* **Event extractor** (`ExtractSwitchEvents`). It walks, in ascending order, every row that some session refers to. For each row it writes a projection: protected columns copy the sheet, and other columns show the registry's value at that row, if any. It tracks which digital columns opened in the current block and which of those have closed. When the two sets are equal and non-empty, it writes a "Differential" row and a blank row, then starts a new block. In the Differential row, a digital column with both open rows and close rows in the block holds the highest open-row pressure minus the lowest close-row pressure. Column 1 holds the label "Differential" unless such a value overwrites it, and every other cell is blank.

`Pipeline.ProcessSheet` strings them together as one folder's pass does: a fresh registry, detection, then the extractor run twice.

The extractor reads a session's points under the names "green" (open) and "yellow" (close). The registry defines them as open and close. The model uses the registry's names, reading green as open and yellow as close. Under the names as written, the extractor would not find the attributes at all (see "Left out").

Layout:
- `sheet.dfy`: the grid and its cells.
- `highlight_registry.dfy`: the registry class and its pure specification.
- `highlight_switch_points.dfy`: the detector.
- `extract_switch_events.dfy`: the extractor's methods and the functions specifying them.
- `switch_events_properties.dfy`: what the event sheet promises.
- `pipeline.dfy`: one folder's pass.

Each imperative operation is a method proved against a pure function:
- `Registry.AddPoint` against `Recorded`;
- the detector against `RecordAll` over `DetectedPoints`;
- the extractor against `SwitchEventsSheet`.

The lemmas state the source's promises about those functions.

## Model

| member | source | states |
|---|---|---|
| Sheet.HeaderRow | temperature_script/extract_switch_events.py:32-34 | the header row has one cell per column, each equal to that column's row-1 cell |
| Sheet.MaxColumn | temperature_script/extract_switch_events.py:32 | the last column number is the width of the widest row: every row fits within it and one row reaches it |
| HighlightRegistry.Session.IsComplete | temperature_script/highlight_registry.py:17-19 | a session is complete exactly when its close slot is filled |
| HighlightRegistry.LastIncomplete | temperature_script/highlight_registry.py:34-35 | returns the index of the last session whose close slot is empty, every later session being complete; returns none only when every session is complete |
| HighlightRegistry.Registry.constructor | temperature_script/highlight_registry.py:22-23 | a new registry has no columns |
| HighlightRegistry.Registry.AddPoint | temperature_script/highlight_registry.py:25-37 | the backwards scan leaves the registry equal to the specification `Recorded` of the old registry and the point: an OPEN appends, a CLOSE fills the last open slot or is dropped, and the column's list is created if missing |
| HighlightRegistry.RecordOpenAppends | temperature_script/highlight_registry.py:30-31 | an OPEN adds exactly one session at the end of its column, holding the point with an empty close slot, and keeps the earlier sessions |
| HighlightRegistry.RecordCloseFillsLastOpenSlot | temperature_script/highlight_registry.py:33-37 | a CLOSE fills the close slot of the last incomplete session and changes no other session; when all sessions are complete the list is unchanged |
| HighlightRegistry.RecordedExtends | temperature_script/highlight_registry.py:25-37 | recording never removes a session or overwrites a filled close slot; the column grows by one on OPEN and keeps its length on CLOSE; the keys gain at most the point's column; other columns are unchanged |
| HighlightRegistry.RecordCountsCompletions | temperature_script/highlight_registry.py:17-37 | an OPEN adds one incomplete session; a CLOSE completes exactly one session when some session is incomplete, and changes nothing when none is |
| HighlightRegistry.RecordKeepsPairedForward | temperature_script/highlight_registry.py:34-37 | a point on a row after every row of its column keeps every attached close on a later row than its open |
| HighlightRegistry.RecordAllPairedForward | temperature_script/highlight_registry.py:25-37 | when each column's points arrive in strictly ascending rows, every close the registry attaches lies on a later row than its session's open |
| HighlightRegistry.RecordKeepsDistinct | temperature_script/highlight_registry.py:25-37 | a point on a row after every row of its column keeps the column's sessions in strictly ascending open-row order, with no close row shared by two complete sessions |
| HighlightRegistry.RecordAllDistinct | temperature_script/highlight_registry.py:25-37 | when each column's points arrive in strictly ascending rows, every column's sessions stay in insertion order, which is ascending open-row order, and no OPEN or CLOSE point belongs to two sessions |
| HighlightSwitchPoints.HighlightSwitchPoints | temperature_script/highlight_switch_points.py:27-53 | the column loop leaves the registry equal to the old registry with the specification's `DetectedPoints` recorded in order |
| HighlightSwitchPoints.ScanColumn | temperature_script/highlight_switch_points.py:39-53 | the row loop from row 3, carrying the previous value, records exactly the column's points in row order |
| HighlightSwitchPoints.ScanStep | temperature_script/highlight_switch_points.py:43-53 | one row of the scan: a 1-to-0 step records an OPEN point with the header and the cell value, a 0-to-1 step a CLOSE point, any other step nothing, before the rest of the column |
| HighlightSwitchPoints.ColumnPointsFromExact | temperature_script/highlight_switch_points.py:42-53 | from a given row on, a point is recorded in a column exactly when it is a 1-to-0 (OPEN) or 0-to-1 (CLOSE) step carrying the header and the cell value |
| HighlightSwitchPoints.DetectedFromExact | temperature_script/highlight_switch_points.py:33-53 | scanning from column `col` records exactly the transitions in unprotected columns from `col` on |
| HighlightSwitchPoints.DetectedExactly | temperature_script/highlight_switch_points.py:33-53 | a point is recorded exactly when its column is unprotected, its row is between 3 and the last, it carries the header and the cell value, and it is a 1-to-0 OPEN or a 0-to-1 CLOSE |
| HighlightSwitchPoints.ColumnPointsFromBounds | temperature_script/highlight_switch_points.py:42 | every point of a column scan lies in that column on a row between the start row and the last row |
| HighlightSwitchPoints.ColumnPointsFromAscending | temperature_script/highlight_switch_points.py:42 | within a column, points are recorded in strictly ascending row order |
| HighlightSwitchPoints.DetectedFromOrdered | temperature_script/highlight_switch_points.py:38-42 | from column `col` on, points lie in columns from `col` and come column by column, rows ascending within a column |
| HighlightSwitchPoints.DetectedInOrder | temperature_script/highlight_switch_points.py:38-42 | all points are recorded in ascending column order, and within a column in strictly ascending row order |
| HighlightSwitchPoints.ColumnPointsFromAlternate | temperature_script/highlight_switch_points.py:45-53 | over 0/1 data, the kinds of a column's points strictly alternate from any start row |
| HighlightSwitchPoints.CleanSignalAlternates | temperature_script/highlight_switch_points.py:45-53 | in a column whose data values are all 0 or 1, OPEN and CLOSE points strictly alternate |
| HighlightSwitchPoints.DetectedPairsForward | temperature_script/highlight_switch_points.py:38-53 | in the registry the detector builds from scratch, every close lies on a later row than its open, each column lists its sessions in ascending open-row order, and no CLOSE point is attached to two sessions |
| HighlightSwitchPoints.NonBinaryValueResetsTransition | temperature_script/highlight_switch_points.py:45-53 | a value other than 0 or 1 still becomes the previous value: the readings 1, 2, 0 record no point |
| ExtractSwitchEvents.Max | temperature_script/extract_switch_events.py:133 | the result is an element of the list and no element exceeds it |
| ExtractSwitchEvents.Min | temperature_script/extract_switch_events.py:133 | the result is an element of the list and no element is below it |
| ExtractSwitchEvents.CollectEventRows | temperature_script/extract_switch_events.py:53-62 | the loops over the columns and their sessions collect exactly the set of open and close rows of all sessions |
| ExtractSwitchEvents.AddSessionRows | temperature_script/extract_switch_events.py:57-62 | adds exactly a column's open rows and close rows to the set |
| ExtractSwitchEvents.SortRows | temperature_script/extract_switch_events.py:64 | returns the members of the row set in ascending order |
| ExtractSwitchEvents.RowsPerColumn | temperature_script/extract_switch_events.py:67-76 | one open-row set and one close-row set for exactly the digital columns, each holding that column's open rows or close rows; a registry column with no sessions is skipped wherever it lies |
| ExtractSwitchEvents.EmptyRowSets | temperature_script/extract_switch_events.py:67-68 | an empty set for exactly the columns from the first digital column to the last |
| ExtractSwitchEvents.AddSessionRowsByKind | temperature_script/extract_switch_events.py:72-76 | adds a column's open rows to the open set and its close rows to the close set |
| ExtractSwitchEvents.PointValues | temperature_script/extract_switch_events.py:79-84 | the lookup table gives, at every (row, column), the value the column's sessions wrote there last, and nothing where none wrote |
| ExtractSwitchEvents.CopyHeader | temperature_script/extract_switch_events.py:32-34 | the output header row equals input row 1, cell for cell |
| ExtractSwitchEvents.ProjectRow | temperature_script/extract_switch_events.py:94-104 | the written row is the projection of the event row: the sheet's cell in protected columns, the registry's value or blank elsewhere |
| ExtractSwitchEvents.TrackRow | temperature_script/extract_switch_events.py:110-114 | the opened set gains the digital columns opening at the row; the closed set gains the already-opened columns that close but do not open at the row |
| ExtractSwitchEvents.DifferentialCells | temperature_script/extract_switch_events.py:119-133 | the Differential row: per digital column, max of open-row pressures minus min of close-row pressures when both exist; the label in column 1; blank elsewhere |
| ExtractSwitchEvents.DifferentialCellFromSets | temperature_script/extract_switch_events.py:122-133 | a digital column's Differential cell, computed from its open-row and close-row sets: max of the open pressures minus min of the close pressures when both lists are non-empty, otherwise the label or blank |
| ExtractSwitchEvents.SheetWalkOpen | temperature_script/extract_switch_events.py:92-114 | a row that leaves the block open adds just its projected row to the sheet, and the walk goes on with the updated block |
| ExtractSwitchEvents.SheetWalkComplete | temperature_script/extract_switch_events.py:92-139 | a row that completes the block adds its projected row, the block's Differential row and a blank row, and the walk restarts from an empty block |
| ExtractSwitchEvents.CreateSwitchEventsSheet | temperature_script/extract_switch_events.py:25-139 | the written sheet is the header row followed by the walk over the sorted event rows, with a Differential row and a blank row after every completed block; its first row is the input's row 1 |
| SwitchEventsProperties.OpenCloseRowsExactly | temperature_script/extract_switch_events.py:57-62 | a row is an open row of a column exactly when one of its sessions opens there, and a close row exactly when one closes there |
| SwitchEventsProperties.EventRowsExactly | temperature_script/extract_switch_events.py:53-62 | a row is an event row exactly when some session of some column refers to it by its open or close point |
| SwitchEventsProperties.SortedRowsMembers | temperature_script/extract_switch_events.py:64 | the sorted rows hold exactly the members of the set, each once |
| SwitchEventsProperties.SortedRowsAscending | temperature_script/extract_switch_events.py:64 | the sorted rows are strictly ascending |
| SwitchEventsProperties.PointValueExactly | temperature_script/extract_switch_events.py:79-84 | a column has no value at a row exactly when no session refers to it; otherwise the value is what the last session referring to the row wrote, its close winning over its open |
| SwitchEventsProperties.ProjectedRowExactly | temperature_script/extract_switch_events.py:97-104 | in a projected row, a protected column holds the sheet's cell; any other column holds the registry's value at the row, or is blank when there is none |
| SwitchEventsProperties.WalkVisitsEachRowOnce | temperature_script/extract_switch_events.py:92-107 | the data rows written are exactly the given event rows, once each, in order |
| SwitchEventsProperties.WalkWellFormed | temperature_script/extract_switch_events.py:92-135 | each data row holds its projection; each Differential row follows a data row and is followed by one blank row |
| SwitchEventsProperties.StepKeepsClosedWithinOpened | temperature_script/extract_switch_events.py:110-114 | one row keeps the closed set within the opened set; neither set loses a member; a column joins the opened set only on its open row, and joins the closed set only on its close row when already opened |
| SwitchEventsProperties.RunKeepsClosedWithinOpened | temperature_script/extract_switch_events.py:107-114 | over any rows, the block's rows grow by exactly those rows, both sets only grow, and the closed set stays within the opened set |
| SwitchEventsProperties.WalkUntilComplete | temperature_script/extract_switch_events.py:116-139 | when the block first completes after k rows, those k data rows are written, then the Differential row of the whole block and a blank row, and the walk restarts from an empty block |
| SwitchEventsProperties.WalkNeverComplete | temperature_script/extract_switch_events.py:92-139 | a block that never completes writes only its data rows: an unfinished block at the end gets no Differential row |
| SwitchEventsProperties.PressuresExactly | temperature_script/extract_switch_events.py:123-130 | a column's pressure list holds exactly the readings of the block's rows in the selected set, and is empty exactly when no such row is in the block |
| SwitchEventsProperties.PressuresPick | temperature_script/extract_switch_events.py:123-130 | the reading of a selected row of the block is in the pressure list |
| SwitchEventsProperties.PressuresSource | temperature_script/extract_switch_events.py:123-130 | every value in the pressure list is the reading of a selected row of the block |
| SwitchEventsProperties.DifferentialIsLargestDrop | temperature_script/extract_switch_events.py:122-133 | for a digital column with open and close rows in the block, the Differential cell is an open-row pressure minus a close-row pressure, and no such pair gives more |
| SwitchEventsProperties.DifferentialLabelOtherwise | temperature_script/extract_switch_events.py:120-133 | without both kinds of rows in a digital column, the Differential cell is the label in column 1 and blank elsewhere |
| SwitchEventsProperties.EventSheetVisitsEventRows | temperature_script/extract_switch_events.py:53-92 | the data rows of the event sheet are exactly the rows some session refers to, each once, in strictly ascending order |
| Pipeline.RecordedFits | temperature_script/extract_switch_events.py:67-84 | recording a point whose column is digital and whose row is readable keeps every registry column digital and every session row readable |
| Pipeline.RecordAllFits | temperature_script/extract_switch_events.py:67-84 | the same holds for a whole sequence of such points |
| Pipeline.DetectedFits | temperature_script/highlight_switch_points.py:33-42 | when every scanned column is digital and pressures are numeric from row 3, the detector's registry meets what the extractor requires |
| Pipeline.ProcessSheet | temperature_script/main.py:45-58 | for any sheet whose detected registry the extractor can read, a fresh registry, detection, then two extractor runs: both runs write the same sheet, and it is the event sheet of the detected registry |

## Left out

- Cell styling is not modelled: fills, fill copying and colours.
- Workbook I/O is not modelled: loading, saving, and deleting or creating sheets. The input is a grid of cells. The output is a sequence of rows, built from scratch on each run, as the source builds it after deleting any old sheet.
- The extractor's full-sheet `cell_values` cache is modelled as a direct read of the grid (`CellAt`). The cache holds exactly those cells for rows 1 to the last row and columns 1 to the last column.
- `get_sessions_by_column` returns the registry's dictionary itself. It is modelled as reading the `columns` field.
- CSV combining, the cleaned-sheet filter, the registry export, configuration loading and the interactive prompt and folder loop of the main script are not part of this model. They are file I/O, colour-code tests on styling, and user interaction.
- Green and yellow points: the extractor reads attributes named for the colours, but the session record defines only the open and close point. As written, the extractor would fail to find those attributes. The model reads green as open and yellow as close.
- Cells hold blank, a real number or text. Python floats are modelled as exact reals. Booleans, dates and the equality of `True` with 1 are not modelled.
- Protected headers are a set of strings. A header that is not text never matches one.
- ExtractSwitchEvents.CreateSwitchEventsSheet: requires every session row to lie within the sheet and to hold a numeric pressure. It also requires every registry column that holds a session to be a digital column, from 1 up. A column whose list is empty, as a dropped CLOSE leaves it, may lie anywhere: the source never looks it up, and the model skips it. The source fails on a column outside the digital range that holds a session, and on an event row beyond the last row. With a non-numeric pressure it may fail, or may compute with Python's mixed-type comparisons; the model does not capture either outcome.
- Pipeline.ProcessSheet: requires what the extractor requires of the registry the detector builds, and no more. It still inherits the extractor's numeric-pressure requirement at every session row (see the `CreateSwitchEventsSheet` line above). Unprotected columns before the digital start column that record no session, including one where only a dropped CLOSE left an empty list, and blank pressures on rows no session refers to, are accepted. `Pipeline.DetectedFits` gives a simpler condition on the sheet alone that is enough.
- ExtractSwitchEvents.PressureAt: reads a non-numeric pressure as 0. The precondition above means this value is never used at an event row.
- ExtractSwitchEvents.CreateSwitchEventsSheet: the blank row after a Differential row is an empty row of cells. In a worksheet, a blank row after the last Differential row is an unwritten row and does not show.
- Session objects are modelled as values in the registry's lists. The source updates a session object in place, and nothing else holds a reference to it, so no aliasing is lost.
