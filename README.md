# Course-compliance report: a verified model of its core

`app.py` is a Streamlit page that reads a training-records spreadsheet exported
from a learning platform and reports, for one direction (department) of the
company, which courses each collaborator has finished and which are still pending.
This project models that page's decision logic and proves properties about it:

- **Normalizer**: `norm_one` and `norm_series`. A text is stripped, upper-cased,
  decomposed to NFKD, and its combining marks are dropped, so "Dirección",
  "DIRECCION" and "direccion " compare equal.
- **Catalog**: the synonym catalogue `SYNONYMS`. Also the required fields
  `REQ_CANON`, the compliant statuses `ESTADOS_CUMPLIDOS` and the "(No existe)"
  option.
- **HeaderLocator**: `score_row_as_header` and `detectar_fila_header`. These find
  the real header row below the title rows, by counting each row's distinct
  normalised cells that are catalogue labels. The module also models the forward
  fill of blank header labels.
- **ColumnMapper**: `build_colmap`, the missing-field check and the manual override
  that either replaces the automatic map or stops processing.
- **Classifier**: `construir_df_minimo`. It projects the five required columns,
  adds their normalised forms and sets the compliance flag and its negation. The
  table is a class whose column fields the methods fill in, as the source adds
  columns to `out`.
- **Filters**: the direction selector and filter, and the exact course selection.
  Also the comma-separated keyword search, which is case-insensitive and
  OR-combined.
- **Aggregator**: the headline metrics and the two grouped summaries, by
  (direction, branch) and by course. Both are sorted by pending count, then by
  total count, descending.
- **Export**: the two tables handed to the Excel report: pending groups only, with
  a "(Sin pendientes)" placeholder when there are none.
- **Scenarios**: worked examples. A Latin-alphabet instance of the Unicode services
  makes the normal forms of concrete words provable.

Inputs that come from outside the program are parameters:

- `TextOps` supplies the Unicode services: `str.isspace`, `str.upper`, NFKD of one
  character, `unicodedata.combining`, and the case folding of `re.IGNORECASE`.
- The sheet is a `Frame` of labelled columns of cells. A cell is `Missing` (NaN)
  or `Value` (its `str`); the value's Python type is not kept (see "## Left out").
- The operator's choices are ordinary values.
- The catalogue is a parameter of the header and column functions.
  `Catalog.Synonyms` is the authored one.

Points where app.py's behaviour is easy to misread:

- Normalisation decomposes with NFKD (compatibility decomposition), not the
  canonical NFD.
- The direction selector offers the raw values of the `Dirección` column, not
  their normal forms; only the filter compares normal forms.
- `build_colmap` takes the *last* column carrying a normal form, because the
  dictionary comprehension overwrites earlier entries. It also drops a found
  empty label.
- The summaries are sorted on two columns, pending then total, descending. Rows
  tied on both keep the ascending key order of `groupby`, with the missing key
  last. The model does not order keys, so only the (pending, total) descending
  order is claimed.

## Model

| member | source | states |
|---|---|---|
| Normalizer.FillBlank | app.py:54 | `fillna("").astype(str)` on one cell: a missing cell reads as "", a value as its text (no contract of its own; `NormSeries` states its use, and it is also the `fillna("")` of app.py:131 and app.py:134, and the fill of app.py:221) |
| Normalizer.TrimLeft | app.py:50 | the leading-whitespace half of `strip()` (no contract of its own; `TrimLeftSpec` states what it removes) |
| Normalizer.TrimRight | app.py:50 | the trailing-whitespace half of `strip()` (no contract of its own; `TrimRightSpec` states what it removes) |
| Normalizer.Strip | app.py:50 | the result of `strip()` neither starts nor ends with whitespace, and is empty exactly when the text is all whitespace |
| Normalizer.StripSlice | app.py:50 | `strip()` keeps one contiguous piece of the text, and only whitespace lies before and after that piece |
| Normalizer.TrimLeftSpec | app.py:50 | the left trim removes exactly the longest all-whitespace prefix |
| Normalizer.TrimRightSpec | app.py:50 | the right trim removes exactly the longest all-whitespace suffix |
| Normalizer.DropCombining | app.py:51 | the kept characters are exactly the input's characters that are not combining marks |
| Normalizer.NormText | app.py:50-51 | a normal form holds no combining mark; an all-whitespace text normalises to "" |
| Normalizer.NormOne | app.py:49-51 | `None` and "" normalise to ""; the result holds no combining mark |
| Normalizer.NormSeries | app.py:53-55 | one result per element, each equal to `norm_one` of the element's `str`, with a missing value read as `None` (for a falsy number the two call shapes differ in the source; see Filters.FilterDirection under "## Left out") |
| Normalizer.NormTextCharwise | app.py:50-51 | normalisation is the concatenation of per-character normal forms of the stripped text |
| Normalizer.NormTextEquivalent | app.py:49-51 | two texts whose stripped characters agree after upper-casing, decomposing and dropping marks have the same normal form (accent and case insensitivity) |
| Normalizer.NormTextPadded | app.py:50 | whitespace added around a text does not change its normal form |
| Normalizer.StripPadded | app.py:50 | `strip()` ignores whitespace added on either side |
| Normalizer.StripIdempotent | app.py:50 | stripping twice is stripping once |
| Normalizer.StripChars | app.py:50 | stripping only removes characters |
| Normalizer.NormSet | app.py:83 | the set of normal forms of a list of labels, as in app.py:83 and in the selection's normal forms at app.py:213 (no contract of its own; `NormSetMembers` states what it holds) |
| Normalizer.NormSetMembers | app.py:83 | the set of normal forms holds exactly the normal forms of the labels |
| Catalog.Canons | app.py:63 | a key is listed exactly when some catalogue entry has it as its field |
| Catalog.Flatten | app.py:83 | `sum(SYNONYMS.values(), [])` holds exactly the synonyms of every entry |
| Catalog.CatalogKeys | app.py:21-47 | the catalogue's keys are the required fields, in order, and are distinct |
| HeaderLocator.CellStr | app.py:75 | `str(x)` of one cell: a missing cell reads as "nan" (no contract of its own; `RowNormMembers` and `ScoreIgnoresBlank` state its effect) |
| HeaderLocator.Blank | app.py:75 | the comprehension's filter: a cell whose stripped `str` is "", "nan" or "None" is skipped (no contract of its own; `RowNormMembers` and `ScoreIgnoresBlank` state its effect) |
| HeaderLocator.RowNorm | app.py:75 | `row_norm`: no more normal forms than the row has cells; `RowNormMembers` states what it holds |
| HeaderLocator.RowNormMembers | app.py:75 | the scored set is exactly the normal forms of the row's cells whose stripped `str` is not "", "nan" or "None" |
| HeaderLocator.ExpectedNorm | app.py:83 | `expected_norm`, the normal forms of the flattened catalogue (no contract of its own; `ExpectedNormMembers` states what it holds) |
| HeaderLocator.ExpectedNormMembers | app.py:83 | the expected set is exactly the normal forms of the catalogue's synonyms |
| HeaderLocator.ScoreRow | app.py:74-76 | a score never exceeds the number of expected labels nor the row's width |
| HeaderLocator.ScoreIgnoresDuplicate | app.py:75-76 | a repeated cell does not raise the score (set semantics) |
| HeaderLocator.ScoreIgnoresBlank | app.py:75 | a blank, "nan" or "None" cell does not raise the score |
| HeaderLocator.ScoreMonotone | app.py:75-76 | a row whose normalised cells include another's scores at least as much |
| HeaderLocator.FullCatalogRowScoresHighest | app.py:74-76 | a row holding every synonym reaches the largest possible score, which no other row exceeds |
| HeaderLocator.StrictBelowFull | app.py:74-76 | a row whose normalised cells miss one of the expected normal forms scores strictly below a row holding every synonym (strict in normal forms only, since several synonyms share one normal form) |
| HeaderLocator.HeaderScore | app.py:88 | the score of one scanned row against the catalogue's expected labels (no contract of its own; `ScoreRow` bounds it and `DetectHeaderRow` states how it is used) |
| HeaderLocator.ScanLimit | app.py:86-87 | the number of scanned rows is `min(max_scan_rows, len(preview))`, and zero for a negative limit |
| HeaderLocator.DetectHeaderRow | app.py:78-94 | the index found is a scanned row of score at least 2 that has the highest score and is the first row with it; no row is found exactly when every scanned row scores below 2 |
| HeaderLocator.FillForward | app.py:134 | non-empty labels are kept; an empty label takes the label on its left; a leading empty one stays empty |
| HeaderLocator.HeaderLabels | app.py:131-134 | each header label is its stripped cell text, with missing cells read as "", and an empty label repeats its left neighbour's |
| ColumnMapper.Norms | app.py:59 | one normal form per column |
| ColumnMapper.IndexByNorm | app.py:60 | every index stored in `idx_by_norm` is a column position |
| ColumnMapper.IndexByNormSpec | app.py:60 | the index maps exactly the columns' normal forms, each to the last column carrying it |
| ColumnMapper.IndexByNormAt | app.py:60 | the same, for one normal form |
| ColumnMapper.FirstMatch | app.py:65-69 | a match is a synonym index from the starting point and a column index |
| ColumnMapper.FirstMatchHit | app.py:66-68 | the chosen column carries the chosen synonym's normal form, and no later column does |
| ColumnMapper.FirstMatchEarliest | app.py:65-69 | no earlier synonym's normal form is carried by any column (first match in authored order wins) |
| ColumnMapper.FirstMatchNone | app.py:64-69 | nothing is found exactly when no synonym's normal form is a column's |
| ColumnMapper.FoundIsColumn | app.py:68 | a found label is one of the column labels |
| ColumnMapper.Found | app.py:63-69 | `found` after the inner loop of one field: the column of its first matching synonym, or nothing (no contract of its own; `FoundIsColumn`, `FirstMatchHit`, `FirstMatchEarliest` and `FirstMatchNone` state its meaning, and `FindLabel` computes it) |
| ColumnMapper.Chosen | app.py:70-71 | the label `if found:` stores for a field: the found one unless it is "" (no contract of its own; `ColmapOfFields` and `BuildColmap` state its use) |
| ColumnMapper.ColmapOf | app.py:62-72 | the dictionary built field by field in authored order (no contract of its own; the lemmas below state what it holds) |
| ColumnMapper.ColmapOfStep | app.py:63-71 | one more field extends the map by that field's label when the label is found and non-empty, and leaves it unchanged otherwise |
| ColumnMapper.ColmapOfRange | app.py:62-72 | the map has only catalogue keys, and only non-empty column labels as values |
| ColumnMapper.ColmapOfFields | app.py:63-71 | a field is mapped exactly when it has a chosen label, and it is mapped to that label |
| ColumnMapper.LastKeyUnmapped | app.py:63-71 | with distinct keys, the fields before the last one never map the last one's key |
| ColumnMapper.DistinctCanonsPrefix | app.py:21-47 | dropping the last field keeps the catalogue's keys distinct |
| ColumnMapper.ColmapOfSpec | app.py:57-72 | the facts of the two lemmas above, stated over the catalogue's entries |
| ColumnMapper.BuildColmap | app.py:57-72 | the map holds only catalogue keys and non-empty column labels; each field is mapped exactly when its earliest matching synonym leads to a non-empty label, and to that label |
| ColumnMapper.FindLabel | app.py:64-69 | the inner loop finds the column for the first synonym whose normal form a column carries, or nothing |
| ColumnMapper.MissingFields | app.py:163 | the missing fields are exactly the required fields absent from the map |
| ColumnMapper.ResolveColumns | app.py:163-186 | with nothing missing the automatic map is used; processing stops exactly when something is missing and some field is marked "(No existe)", reporting exactly the marked fields; otherwise the operator's picks form the map, one per required field |
| ColumnMapper.MarkedMissing | app.py:179 | the still-missing list holds exactly the fields marked "(No existe)" and is empty exactly when none is |
| ColumnMapper.PairUp | app.py:184 | the manual map has exactly the required fields as keys, each with its pick |
| Classifier.Occurrences | app.py:98-102 | a label occurs nowhere exactly when it is absent |
| Classifier.IndexOf | app.py:98-102 | the first column carrying the label |
| Classifier.Select | app.py:98-102 | selection succeeds exactly when one column carries the label, and gives that column, of the sheet's height |
| Classifier.WellFormed | app.py:105-111 | the record invariant: each normalised field is `norm_one` of its raw field, the compliance flag is membership of the normalised status in `ESTADOS_CUMPLIDOS`, and pending is its negation (a predicate; `Classify`, `WellFormedIsClassified` and `RecordTable.Rows` state what satisfies it) |
| Classifier.Classify | app.py:105-111 | a record built from raw cells is well formed and keeps those cells |
| Classifier.WellFormedIsClassified | app.py:105-111 | a well-formed record is determined by its five raw cells |
| Classifier.RecordTable.constructor | app.py:97-103 | the new table holds the five projected columns, of one length, and no derived column |
| Classifier.RecordTable.AddNormalizedColumns | app.py:105-108 | the four derived columns become the normalisations of their raw columns; nothing else changes |
| Classifier.RecordTable.AddComplianceFlags | app.py:110-111 | a row is compliant exactly when its normalised status is in `ESTADOS_CUMPLIDOS`, and pending is its negation; nothing else changes |
| Classifier.RecordTable.Rows | app.py:96-112 | read row by row, every record is the `Classify` record of the raw cells of its position, so it is well formed and carries those cells |
| Classifier.BuildMinimalTable | app.py:96-112 | the build succeeds exactly when every required field maps to a label selecting one column; the result is a fresh classified table of the sheet's height holding the selected columns |
| Filters.Where | app.py:197 | boolean indexing keeps exactly the rows satisfying the mask, each at most as often as before |
| Filters.WhereAppend | app.py:197 | filtering distributes over concatenation, so order is kept |
| Filters.WhereAll | app.py:212-221 | a mask keeping every row changes nothing |
| Filters.WhereIdempotent | app.py:197 | filtering twice by a mask is filtering once |
| Filters.DirectionCells | app.py:191 | the `Dirección` column: a cell is listed exactly when some record carries it as its direction |
| Filters.Choices | app.py:191 | the selector offers exactly the present values whose stripped text is not empty |
| Filters.FilterDirection | app.py:197 | the direction filter keeps exactly the rows whose normalised direction is the target's normal form |
| Filters.DirectionFilterKeepsEquivalent | app.py:197 | a row whose raw direction normalises like the target is kept |
| Filters.ChosenDirectionSelectsRows | app.py:191-197 | a direction offered by the selector keeps at least one row carrying it |
| Filters.CourseCells | app.py:209 | the `Curso` column: a cell is listed exactly when some record carries it as its course |
| Filters.FilterCoursesExact | app.py:208-214 | an empty selection keeps every row; otherwise exactly the rows whose normalised course is among the selection's normal forms |
| Filters.FilterCoursesExactSpec | app.py:212-214 | a row is kept exactly when its normalised course equals the normal form of a selected name |
| Filters.SplitOn | app.py:218 | `split` gives at least one piece, and no piece holds the separator |
| Filters.JoinSplit | app.py:218 | joining a split's pieces gives back the text |
| Filters.SplitJoin | app.py:218 | splitting a join of separator-free pieces gives back the pieces |
| Filters.StrippedNonEmpty | app.py:218 | the `[t.strip() for t in … if t.strip()]` comprehension: never more pieces than it was given; `StrippedNonEmptyMembers` states what it keeps |
| Filters.StrippedNonEmptyMembers | app.py:218 | the kept pieces are exactly the non-empty stripped pieces |
| Filters.Keywords | app.py:218 | the keyword list of the search box (no contract of its own; `KeywordsSpec` states what it holds) |
| Filters.KeywordsSpec | app.py:218 | the keywords are exactly the non-empty stripped comma-separated pieces; none holds a comma or surrounding whitespace; no text gives no keywords |
| Filters.MatchesAt | app.py:220-221 | the keyword lies at that position of the text, character by character under the case folding (a predicate; `FirstOccurrenceSpec` and `FilterKeywordsSpec` state its use) |
| Filters.FirstOccurrence | app.py:220-221 | the search for the first case-insensitive occurrence (no contract of its own; `FirstOccurrenceSpec` states what it finds) |
| Filters.FirstOccurrenceSpec | app.py:220-221 | the search finds the first position where the keyword occurs case-insensitively, or reports that it occurs nowhere |
| Filters.ContainsIgnoreCase | app.py:220-221 | `str.contains(re.escape(k), case=False)` for one keyword (a predicate; `ContainsIgnoreCaseSpec` states its meaning) |
| Filters.ContainsIgnoreCaseSpec | app.py:220-221 | the escaped search succeeds exactly when the keyword occurs somewhere in the text |
| Filters.AnyKeyword | app.py:220-221 | the escaped alternation matches a text when one of the keywords occurs in it, ignoring case (no contract of its own; `ContainsIgnoreCaseSpec` and `FilterKeywordsSpec` state its meaning) |
| Filters.FilterKeywords | app.py:218-221 | no keywords keeps every row; otherwise exactly the rows whose course text contains one of the keywords |
| Filters.FilterKeywordsSpec | app.py:219-221 | a row is kept exactly when some keyword occurs at some position of its course text, ignoring case |
| Filters.FilterCourses | app.py:206-221 | either course filter only removes rows |
| Aggregator.CountIf | app.py:224-226 | a count never exceeds the number of records |
| Aggregator.MetricsOf | app.py:224-232 | the total is the record count, and the compliant and pending counts do not exceed it |
| Aggregator.MetricsBalanced | app.py:224-232 | with consistent flags every record is counted as exactly one of compliant or pending |
| Aggregator.Groups | app.py:237-239 | the unsorted `groupby(…).agg(…)` table: one tally per distinct key (no contract of its own; `ReportRows`, `ReportTallies`, `ReportKeys` and `ReportKeysDistinct` state what it holds) |
| Aggregator.Tally | app.py:237-238 | a group's row has its key and at most as many records as there are |
| Aggregator.TallyCounts | app.py:237-238 | a group counts exactly the records carrying its key, and among them the compliant and pending ones |
| Aggregator.TallyPendingBound | app.py:238 | a group never counts more compliant or pending records than it has |
| Aggregator.TallyBalanced | app.py:238 | with consistent flags a group's total is its compliant plus its pending count |
| Aggregator.DistinctKeys | app.py:237 | the distinct keys, each once, exactly those the records carry |
| Aggregator.KeysOf | app.py:237 | a key is listed exactly when some record carries it |
| Aggregator.TalliesFor | app.py:237-239 | one tally per listed key, in order |
| Aggregator.SumTotalsStep | app.py:238 | one more record adds one to the totals when its key is listed once |
| Aggregator.SumTotalsCovering | app.py:237-239 | over distinct keys covering every record, the group totals add up to the record count |
| Aggregator.Insert | app.py:240 | inserting a row adds exactly that row |
| Aggregator.InsertDescending | app.py:240 | inserting into a list sorted by (pending, total) descending keeps it sorted |
| Aggregator.SortDesc | app.py:240 | the result is sorted by (pending, total) descending and is a permutation of the input |
| Aggregator.SortSums | app.py:240 | sorting keeps the sums of the total and pending columns |
| Aggregator.Report | app.py:236-254 | `groupby`, `agg` and `sort_values` of one summary (no contract of its own; the lemmas below state what it holds) |
| Aggregator.ReportRows | app.py:236-241 | a summary is sorted by (pending, total) descending and holds exactly the grouped rows |
| Aggregator.BranchKey | app.py:237 | the (`Dirección`, `Sucursal`) grouping key of a record (no contract of its own; the `Report*` lemmas hold for any key) |
| Aggregator.CourseKey | app.py:250 | the `Curso` grouping key of a record (no contract of its own; the `Report*` lemmas hold for any key) |
| Aggregator.ReportTallies | app.py:237-238 | each summary row is the tally of its own key |
| Aggregator.ReportKeysFromRecords | app.py:237 | every summary row's key is carried by some record |
| Aggregator.ReportCoversRecords | app.py:237 | every record's key has a summary row |
| Aggregator.ReportKeys | app.py:236-241 | the three facts above together |
| Aggregator.ReportKeysDistinct | app.py:237-239 | no key has two rows in a summary |
| Aggregator.ReportConserves | app.py:236-241 | the summary totals add up to the number of filtered records (conservation) |
| Aggregator.ReportBalanced | app.py:236-241 | with consistent flags every summary row's total is its compliant plus its pending count |
| Aggregator.ReportPendingMatchesMetrics | app.py:225-241 | the summary's pending counts add up to the headline pending figure |
| Aggregator.PendingConserved | app.py:225-238 | over distinct keys covering every record, the pending counts add up to the headline pending figure |
| Aggregator.EmptyReport | app.py:236-254 | no records give an empty summary |
| Export.PendingGroups | app.py:277-288 | the `pendientes > 0` selection of a summary (no contract of its own; `PendingGroupsSpec` states what it keeps) |
| Export.PendingGroupsSpec | app.py:277 | the kept summary rows are exactly those with pending records; none are kept exactly when no row pends |
| Export.CourseLines | app.py:279-284 | one line per summary row, in order |
| Export.AreaLines | app.py:290-291 | one line per summary row, in order |
| Export.CourseLine | app.py:280-284 | the `[curso, pend, pct]` line of one summary row (no contract of its own; `CourseLinesSpec` states which rows give lines, and `Share` its percentage cell) |
| Export.AreaLine | app.py:290-291 | the `[r["Sucursal"], pend]` line of one summary row (no contract of its own; `AreaLinesSpec` states which rows give lines) |
| Export.Framed | app.py:278-293 | the header, then the lines, or the placeholder when there are none (no contract of its own; `CourseTableShape` and `AreaTableShape` state the table's shape) |
| Export.CourseTableShape | app.py:277-286 | the course table starts with its header and has at least two rows; it is header plus placeholder exactly when no row pends, and otherwise header plus the pending rows' lines |
| Export.AreaTableShape | app.py:288-293 | the same for the area table |
| Export.BuildCourseTable | app.py:277-286 | `tabla_cursos` is the header followed by the pending rows' lines, or by the placeholder when there are none |
| Export.BuildAreaTable | app.py:288-293 | `tabla_areas` is the header followed by the pending rows' lines, or by the placeholder when there are none |
| Export.CourseLinesSpec | app.py:277-284 | the course lines are exactly the lines of the pending summary rows, and none equals the placeholder |
| Export.AreaLinesSpec | app.py:288-291 | the area lines are exactly the lines of the pending summary rows, and none equals the placeholder |
| Export.Share | app.py:283 | the percentage cell is a percentage exactly when the group has records, and then it is of that group's own pending and total counts; otherwise it is "0 %" |
| Export.ShareOfPendingGroup | app.py:283 | a group with pending records has records, so its percentage is never the "0 %" fallback |
| Export.NoRecordsNoPendingGroups | app.py:277-293 | with no filtered records neither summary has a pending row, and both tables are exactly the header plus the placeholder |
| Scenarios.LocateBelowTwo | app.py:85-94 | with two low-scoring rows above a row scoring at least 2, the third row is found |
| Scenarios.LocateHeaderExample | app.py:78-94 | two title rows above a row of labels "Nombre", "Dirección", "Sucursal", "Curso", "Estado" give header index 2 |
| Scenarios.TitleRowScoresLow | app.py:74-76 | a row with one text cell and empty cells scores at most 1 |
| Scenarios.TwoLabelsScoreTwo | app.py:74-76 | a row holding two catalogue labels with different normal forms scores at least 2 |
| Scenarios.DirectionExample | app.py:197 | "FINANZAS", "Finanzas" and "finanzas" are all kept by the filter for "Finanzas" |
| Scenarios.StatusFact | app.py:108-111 | a record's status flags follow the normal form of its status |
| Scenarios.FinishedIsCompliant | app.py:110-111 | "Terminado" is compliant |
| Scenarios.InProgressIsPendingRecord | app.py:110-111 | "En proceso" is pending |
| Scenarios.ExemptionIsCompliant | app.py:110-111 | "EXENCIÓN" is compliant |
| Scenarios.StatusExample | app.py:110-111 | records with statuses "Terminado", "En proceso" and "EXENCIÓN" give 3 records, 2 compliant and 1 pending |
| Scenarios.SingleKeyword | app.py:218 | "seguridad" is the single keyword of "seguridad" |
| Scenarios.SeguridadInSafetyCourse | app.py:220-221 | "seguridad" occurs in "Medidas de seguridad en el puesto de trabajo" |
| Scenarios.SeguridadNotInPciCourse | app.py:220-221 | "seguridad" does not occur in "PCI DSS" |
| Scenarios.KeywordSearchExample | app.py:216-221 | searching "seguridad" over those two courses keeps only the first |
| Scenarios.NormalisationNotIdempotent | app.py:50-51 | under a decomposition that, like NFKD, turns the spacing acute accent U+00B4 into a space and a combining acute, normalising "\u00b4A" gives " A", and normalising that again gives "A": normalisation is not idempotent |

## Left out

- The Streamlit user interface: page layout, messages, charts, the radio button
  and `st.stop` (which appears as the `Stop` resolution). The detail tables
  (app.py:260-270) only display sorted columns.
- Reading the workbook and its cache (`cargar_excel_autoheader`, app.py:114-141)
  are file I/O. Only the header-label fill at app.py:131-134 is modelled, by
  `HeaderLocator.HeaderLabels`. Neither the fallback to the first row when no
  header is found (app.py:121-127) nor dropping all-empty columns (app.py:138) is
  modelled.
- The call to the Excel writer and the report date (app.py:295-300) are I/O.
  `reporte_excel.py`, `Reporte.py` and the other page variants are not part of this
  model.
- Normalizer.NormText: idempotence (`normalize(normalize(x)) == normalize(x)`) is
  not claimed, because it does not hold: stripping happens before decomposition,
  and NFKD turns the spacing acute accent U+00B4 into a space followed by a
  combining acute. So "´A" normalises to " A", which normalises to "A";
  `Scenarios.NormalisationNotIdempotent` proves this under a Latin instance with
  that decomposition. NFKD is applied one character at a time. This is equivalent here,
  because canonical reordering only moves marks that are dropped afterwards.
- Filters.Choices: returns a set. The sorting of the selector's list
  (app.py:191, 209) is not modelled, and neither is the error for an empty list
  (app.py:192-194). Because a cell keeps only its `str`, the `TypeError` that
  `sorted()` raises on a column mixing text and numbers is not modelled either:
  the model offers every such value.
- Filters.FilterDirection: the target is normalised as its `str`. In the source,
  `norm_one` works on the selected value itself (app.py:50, reached from app.py:197),
  and two cases go wrong there for a non-text direction:
  - A non-zero number raises `AttributeError` from `.strip()`, so the page fails.
  - A falsy number (0, 0.0, or `False`) passes `(txt or "")` as "". No error is
    raised. The value is still offered, because `str(0).strip()` is "0" (app.py:191).
    app.py:197 then keeps the rows whose normalised direction is "", that is, the
    rows with a missing or blank direction. The row holding 0 is dropped, because
    its normalised direction is "0".

  The model keeps the rows carrying the value in both cases, so
  `Filters.ChosenDirectionSelectsRows` does not describe the source for a non-text
  direction.
- Aggregator.BranchKey: keys are cells holding a `str`, and groups form by equal
  text. `groupby` (app.py:237) compares the values themselves, and the two differ
  both ways:
  - A number `1` and a text `"1"` fall into one group here, but `groupby` keeps
    them apart.
  - `1`, `1.0` and `True` are equal in Python, so `groupby` on an object column puts
    them in one group. The model keeps `Value("1")`, `Value("1.0")` and
    `Value("True")` apart.

  The same holds for Aggregator.CourseKey (app.py:250).
- Filters.AnyKeyword: the regular expression is modelled by its meaning, a literal
  occurrence of one keyword with characters compared through the case folding
  `fold`. Full Unicode case-insensitive matching, in which one character may match
  several, is not modelled.
- Aggregator.SortDesc: the order among rows with equal pending and total counts is
  not stated, because the model does not order keys; the source keeps groupby's
  ascending key order for ties, with the missing key last. Only the
  (pending, total) descending order and being a permutation are proved.
- Aggregator.Report: the index order pandas gives groups before sorting is not
  modelled. The unsorted groups come in order of first appearance.
- Classifier.Select: a label carried by several columns is an error here. In
  pandas it selects a sub-frame, which `construir_df_minimo` does not expect.
- Export.Share: the percentage is kept as the pair (pending, total). The
  one-decimal text formatting of a float is not modelled.
- ColumnMapper.ResolveColumns: the operator's choices arrive as a parameter. The
  pre-selected default of each selectbox (app.py:174-176) only decides what the
  page shows first.
- ColumnMapper.BuildColmap: the catalogue is a parameter with distinct keys.
  `Catalog.CatalogKeys` proves that the authored catalogue qualifies.
