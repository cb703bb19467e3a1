# Survey ingest pipeline — a Dafny model

This project models the record pipeline of `project/ingest/run.py`, a batch
script that ingests survey spreadsheets (`id_encuesta`, `fecha`,
`satisfaccion_general`, `servicio_usado`, `comentarios`), cleans and validates
them, and persists them into layers: raw (bronze), quarantine, clean (silver,
upserted by `id_encuesta`) and a clean export that feeds the report.

Modules, in pipeline order:

- `Wrappers` — `Option`, the null of every cell and parsed field.
- `Text` — `normalize_text`: NFD, removal of `Mn` marks, lowercasing, `strip`,
  and collapsing of `\s+` runs. The Unicode tables stay abstract in a `Unicode`
  value: NFD, the `Mn` test, the whitespace test and per-character lowercasing.
- `Lex`, `Sorting` — Python's code-point order on `str`, and an insertion sort
  under a total preorder. They serve the file order (`sorted(glob)`) and the
  timestamp order (`sort_values("_ingest_ts")`).
- `Schema` — reindexing every file's rows to `EXPECTED_COLUMNS + ['_source_file','_ingest_ts']`.
  Also the ingestion loop over the name-sorted files, with one clock reading per file.
- `Validate` — null tokens, coercion of dates and scores, the `valid` mask,
  and the clean/quarantine split.
- `Dedup` — `sort_values("_ingest_ts").drop_duplicates("id_encuesta", keep="last")`.
- `Report` — the integer figures of the report: the total, the score
  distribution, the per-month counts and the period.
- `Store` — the upsert, the replace-if-non-empty rules, the `LayeredStore`
  class that the run updates in place, and `Run`, one run of the script.

Collaborators the model takes as inputs: the directory listing
(`seq<InputFile>`; each file's rows, or `None` when reading it raised), the
ingest clock (one ISO-8601 text per file in name order), the date and number
parsers (`Parsers`), and the Unicode tables (`Unicode`).

Where the code differs from what its comments or a reader would expect, the
model follows the code:

- Null tokens (`'NS/NC'`, `'No contesta'`, `'no sabe'`) are matched exactly and case-sensitively.
- Satisfaction text that is not numeric coerces to null, and a null score is
  valid, so such a row goes to `clean`, not to quarantine.
- The raw and quarantine tables are replaced only by a non-empty batch.
  The quarantine CSV is rewritten on every run.
- The clean export is rewritten only when the run has clean rows. After a run
  without any, the report reads the previous run's export
  (`Store.EmptyRunReportsStaleExport`) instead of reporting "no data".

Deduplication tie-break: rows are ordered by (`_ingest_ts` as text, position
in the clean frame), and the last row of each id in that order survives. With
equal timestamps, the later row in file-then-row order wins.

## Model

| member | source | states |
|---|---|---|
| `Text.NormalizeText` | project/ingest/run.py:37-49 | None (None or non-text input) stays None. Text comes back with no whitespace at either end and never two adjacent whitespace characters |
| `Text.NormalizeDropsMarks` | project/ingest/run.py:42-46 | the result holds no `Mn` character, provided lowercasing emits none |
| `Text.NormalizeIsLowercase` | project/ingest/run.py:46 | the result is its own lowercase, provided lowercasing is idempotent |
| `Text.NormalizeKeepsWords` | project/ingest/run.py:46-48 | the non-whitespace characters are exactly those of the mark-free lowercased text, in order |
| `Text.NormalizeIsJoinOfWords` | project/ingest/run.py:42-48 | the result is `' '.join(s.split())` of the mark-free lowercased text `s`: its words (`Text.Words`, an independent definition of `str.split()`), in order, separated by exactly one space |
| `Text.Lower` | project/ingest/run.py:46 | `str.lower()` character by character; specified by `Text.NormalizeIsLowercase` and `Text.NormalizeDropsMarks` |
| `Text.DropMarks` | project/ingest/run.py:44 | no `Mn` character is left, every kept character comes from the input, and every non-mark input character is kept; order and multiplicity are pinned by `Text.DropMarksAppend` and `Text.DropMarksOne` |
| `Text.DropMarksAppend` | project/ingest/run.py:44 | filtering a concatenation is the concatenation of the filtered parts, so the kept characters keep their order and multiplicity |
| `Text.DropMarksOne` | project/ingest/run.py:44 | a single character is kept exactly when its category is not `Mn`; with `Text.DropMarksAppend` this pins the filter down on every input |
| `Text.TrimStart` | project/ingest/run.py:46 | the result is a suffix of the input, starts with non-whitespace, and everything removed is whitespace |
| `Text.TrimEnd` | project/ingest/run.py:46 | the result is a prefix of the input, ends with non-whitespace, and everything removed is whitespace |
| `Text.Strip` | project/ingest/run.py:46 | the result has no whitespace at either end |
| `Text.StripChars` | project/ingest/run.py:46 | stripping adds no character |
| `Text.StripIsInfix` | project/ingest/run.py:46 | the stripped text is an infix of the input, and everything outside that infix is whitespace: only the two ends are removed |
| `Text.Collapse` | project/ingest/run.py:48 | `re.sub(r'\s+', ' ', s)`; specified by `Text.CollapseEnds`, `Text.CollapseNoDoubleSpace` and `Text.CollapseTrimmed` |
| `Text.CollapseEnds` | project/ingest/run.py:48 | the result is empty iff the input is; an input that starts (or ends) with non-whitespace yields a result that starts (or ends) with the same character |
| `Text.CollapseNoDoubleSpace` | project/ingest/run.py:48 | the result never holds two adjacent whitespace characters |
| `Text.CollapseTrimmed` | project/ingest/run.py:47-48 | on text with no whitespace at either end, collapsing gives the words joined by exactly one space: each maximal whitespace run becomes one `' '` |
| `Text.CollapseChars` | project/ingest/run.py:48 | collapsing adds no character except the plain space |
| `Lex.StrLeTotal` | project/ingest/run.py:55 | any two strings are comparable in code-point order |
| `Lex.StrLeAntisymmetric` | project/ingest/run.py:135 | strings each `<=` the other are equal |
| `Lex.StrLeTransitive` | project/ingest/run.py:135 | string order is transitive |
| `Sorting.Sort` | project/ingest/run.py:55 | the sorted sequence is a permutation of the input |
| `Sorting.SortSorted` | project/ingest/run.py:55 | under a total preorder the result is sorted |
| `Schema.Reindex` | project/ingest/run.py:80 | one cell per requested column, in column order; a column the row lacks is null |
| `Schema.ReconcileRow` | project/ingest/run.py:73-80 | one row of a file, stamped and reindexed; specified by `Schema.ReconcileIsReindex` and `Schema.ReconcileDropsExtras` |
| `Schema.ReconcileIsReindex` | project/ingest/run.py:73-80 | a reconciled row's cells are the provenance-stamped row reindexed to `EXPECTED_COLUMNS + ['_source_file','_ingest_ts']` |
| `Schema.ReconcileDropsExtras` | project/ingest/run.py:80 | two rows that agree on the expected columns reconcile alike, so extra columns are dropped |
| `Schema.ReconcileFile` | project/ingest/run.py:73-80 | the frame keeps the file's row count; every row carries the file's name and its single ingest timestamp; business cells are the reindexed row |
| `Schema.SortFiles` | project/ingest/run.py:55 | `sorted(DATA.glob("*.xlsx"))`; specified by `Schema.SortFilesSpec` |
| `Schema.SortFilesSpec` | project/ingest/run.py:55 | files are processed in name order, and none is lost or added |
| `Schema.Frames` | project/ingest/run.py:66-85 | the list `raw` of per-file frames: at most one frame per file |
| `Schema.Concat` | project/ingest/run.py:89 | `pd.concat(raw, ignore_index=True)`; specified by `Schema.ConcatLength` |
| `Schema.Ingested` | project/ingest/run.py:55-94 | the rows of the readable files, in name order; specified by `Schema.IngestedProvenance` and `Schema.IngestedComplete` |
| `Schema.ConcatLength` | project/ingest/run.py:89 | concatenation keeps every row of every frame |
| `Schema.IngestedProvenance` | project/ingest/run.py:66-89 | every ingested row comes from a readable file and carries its name and timestamp |
| `Schema.IngestedComplete` | project/ingest/run.py:66-89 | every row of every readable file reaches `raw`, reconciled with that file's name and timestamp |
| `Schema.Ingest` | project/ingest/run.py:55-94 | the loop's result is the concatenation of the frames of the name-sorted readable files; the row count is the sum of their row counts |
| `Validate.ParseSatisfaction` | project/ingest/run.py:108-116 | null tokens, then `pd.to_numeric(errors="coerce")`; specified by `Validate.NullTokensBecomeNull` and `Validate.NullTokensAreCaseSensitive` |
| `Validate.ParseDate` | project/ingest/run.py:114 | `pd.to_datetime(errors="coerce").dt.date`, null for an empty cell; the parser itself is abstract |
| `Validate.Coerce` | project/ingest/run.py:104-116 | one row after normalisation and coercion; specified through `Validate.NullScoreNeverQuarantines` and `Text.NormalizeText` |
| `Validate.CoerceAll` | project/ingest/run.py:104-116 | the column assignments applied to every row: same length, row `i` is `Coerce` of raw row `i` |
| `Validate.ReplaceNullTokens` | project/ingest/run.py:108-110 | a cell becomes null exactly when it is null or equal to a null token; other cells are unchanged |
| `Validate.NullTokensBecomeNull` | project/ingest/run.py:108-116 | a null token coerces to null; any other text goes to numeric coercion, where non-numeric text also gives null |
| `Validate.NullTokensAreCaseSensitive` | project/ingest/run.py:108-110 | `'ns/nc'` and `'No Sabe'` are not tokens: they go through numeric coercion |
| `Validate.NullScoreNeverQuarantines` | project/ingest/run.py:116-125 | with a null score, validity depends only on the date and the id |
| `Validate.IsValid` | project/ingest/run.py:120-125 | the `valid` mask: date parsed, id non-null and non-empty, score null or in [1,10]; specified by `Validate.NullScoreNeverQuarantines`, `Validate.ValidRows` and `Validate.InvalidRows` |
| `Validate.Split` | project/ingest/run.py:127-131 | `(df.loc[valid], df.loc[~valid])`; specified by `Validate.SplitInterleaves`, `Validate.SplitCounts` and `Validate.SplitDisjoint` |
| `Validate.ValidRows` | project/ingest/run.py:131 | `clean` holds only valid rows, and every valid row is in it |
| `Validate.InvalidRows` | project/ingest/run.py:129 | `quarantine` holds only invalid rows, and every invalid row is in it |
| `Validate.SplitInterleaves` | project/ingest/run.py:120-131 | the input is an order-preserving interleaving of clean and quarantine, so both keep input order and each row goes to exactly one of them |
| `Validate.SplitCounts` | project/ingest/run.py:120-131 | the multisets of clean and quarantine add up to the input's, so the row counts add up too |
| `Validate.SplitDisjoint` | project/ingest/run.py:129-131 | no row is in both parts |
| `Validate.ToClean` | project/ingest/run.py:120-131 | a valid row becomes a typed clean row: the id is non-empty and the score is null or in [1,10] |
| `Dedup.KeyLe` | project/ingest/run.py:135 | the sort key of `sort_values("_ingest_ts")` with the documented tie-break by position; specified by `Dedup.KeyLeTotalPreorder` |
| `Dedup.KeyLeTotalPreorder` | project/ingest/run.py:135 | (timestamp, position) order is total and transitive |
| `Dedup.KeepLast` | project/ingest/run.py:137 | `drop_duplicates(keep="last")`: the result holds only input elements and is no longer; specified further by `Dedup.KeepLastUnique`, `Dedup.KeepLastCovers` and `Dedup.KeepLastKeepsGreatest` |
| `Dedup.KeepLastUnique` | project/ingest/run.py:137 | `keep="last"` leaves each id at most once |
| `Dedup.KeepLastCovers` | project/ingest/run.py:137 | every id of the input is kept |
| `Dedup.KeepLastKeepsGreatest` | project/ingest/run.py:135-137 | on sorted input, each survivor is greatest among the rows with its id |
| `Dedup.Dedup` | project/ingest/run.py:134-137 | sort, then keep the last row per id; specified by `Dedup.DedupGreatest`, `Dedup.DedupSubset`, `Dedup.DedupIdsUnique`, `Dedup.DedupKeepsIds`, `Dedup.DedupLatest` and `Dedup.DedupKeepsClean` |
| `Dedup.DedupGreatest` | project/ingest/run.py:134-137 | each survivor is the row at its recorded input position and is greatest in its id group by (timestamp, position): the chosen tie-break |
| `Dedup.DedupSubset` | project/ingest/run.py:134-137 | deduplication only drops rows |
| `Dedup.DedupIdsUnique` | project/ingest/run.py:134-137 | after deduplication each `id_encuesta` appears at most once |
| `Dedup.DedupKeepsIds` | project/ingest/run.py:134-137 | every id present among the valid rows survives |
| `Dedup.DedupLatest` | project/ingest/run.py:134-137 | the survivor has the maximal `_ingest_ts` of its id group |
| `Dedup.DedupKeepsClean` | project/ingest/run.py:134-140 | surviving ids are non-empty and surviving scores are null or in [1,10] |
| `Report.Bump` | project/ingest/run.py:243 | one more occurrence keeps the table key-ascending with positive counts; the new smallest key is the smaller of the old one and the counted value |
| `Report.BumpCounts` | project/ingest/run.py:243 | one more occurrence raises only that value's count, by one, and the total by one |
| `Report.TallyOf` | project/ingest/run.py:243-251 | `value_counts().sort_index()` / `groupby().count()`: keys ascending with positive counts, each key's count is its number of occurrences, counts sum to the number of keys counted |
| `Report.TallyKeys` | project/ingest/run.py:243 | the table's keys are exactly the distinct values counted |
| `Report.Scores` | project/ingest/run.py:243 | the non-null scores that `value_counts()` counts: a value is in the result exactly when some row holds it as its score, and there are no more of them than rows |
| `Report.ScoresCount` | project/ingest/run.py:243 | each score occurs in `Report.Scores` as often as there are rows holding it (`Report.RowsScoring`, a count over the rows) |
| `Report.MonthKey` | project/ingest/run.py:240 | `fecha.dt.to_period('M')` as one integer; specified by `Report.MonthKeyRoundTrip` |
| `Report.MonthKeys` | project/ingest/run.py:240 | the month key of every export row, in row order |
| `Report.MonthKeyRoundTrip` | project/ingest/run.py:240 | the month key gives back (year, month) and orders months chronologically |
| `Report.MinDate` | project/ingest/run.py:255 | the first date of the period is a row's date and no row is earlier |
| `Report.MaxDate` | project/ingest/run.py:256 | the last date of the period is a row's date and no row is later |
| `Report.Summarize` | project/ingest/run.py:234-263 | `kpi_total_encuestas` is the number of export rows. The period is "no data" (`—`) exactly when there are none, and then both tables are empty; otherwise it runs from `Report.MinDate` to `Report.MaxDate` of the export. The layer counts are passed through |
| `Report.SummarizeSums` | project/ingest/run.py:236-251 | distribution counts sum to the number of non-null scores (at most the total), and each score's count is the number of export rows holding it; monthly counts sum to the total |
| `Report.DistributionInRange` | project/ingest/run.py:243 | with every score null or in [1,10], every distribution key is in 1..10 |
| `Store.UpsertAll` | project/ingest/run.py:182-204 | the clean table after the row-by-row upsert; specified by `Store.UpsertKeys`, `Store.UpsertLastWins` and `Store.UpsertSpec` |
| `Store.UpsertKeys` | project/ingest/run.py:182-204 | after the upsert the key set is the old keys plus the batch ids; other keys keep their rows |
| `Store.UpsertLastWins` | project/ingest/run.py:190-204 | each batch id maps to the values of the last batch row carrying it |
| `Store.UpsertSpec` | project/ingest/run.py:182-204 | the upsert's full semantics: keys, unchanged rows, last-row-wins |
| `Store.UpsertUnique` | project/ingest/run.py:190-204 | with unique batch ids, each batch id maps to that batch row's values |
| `Store.UpsertIdempotent` | project/ingest/run.py:182-206 | upserting the same batch twice equals upserting it once |
| `Store.UpsertLaterRunWins` | project/ingest/run.py:182-206 | across two runs, an id in the later batch holds the later run's values |
| `Store.Prepare` | project/ingest/run.py:101-137 | coercion, split and deduplication of one batch; specified by `Store.PrepareOk` and `Store.PrepareQuarantine` |
| `Store.CleanPart` | project/ingest/run.py:127-140 | the valid rows, typed and deduplicated; specified by `Store.CleanPartCovers` and `Store.CleanPartLastWins` |
| `Store.PrepareRun` | project/ingest/run.py:55-137 | ingestion of the name-sorted directory followed by `Store.Prepare` |
| `Store.PrepareOk` | project/ingest/run.py:101-140 | the cleaning stage quarantines only invalid rows; clean rows are valid and have unique ids |
| `Store.PrepareQuarantine` | project/ingest/run.py:127-137 | every invalid row is quarantined in input order and never deduplicated. Valid plus quarantined rows are all the raw rows |
| `Store.CleanPartCovers` | project/ingest/run.py:120-137 | every id of a valid row has a clean row |
| `Store.CleanPartLastWins` | project/ingest/run.py:134-137 | an id's clean row has the latest ingest timestamp among that id's valid rows |
| `Store.Persist` | project/ingest/run.py:146-206 | the layers after one run; specified by `Store.PersistKeepsOk`, `Store.PersistIdempotent` and `Store.EmptyRunReportsStaleExport` |
| `Store.PersistKeepsOk` | project/ingest/run.py:144-206 | persisting a cleaned batch keeps the layers' invariants, including unique ids in the export |
| `Store.PersistIdempotent` | project/ingest/run.py:144-206 | persisting the same batch again leaves every layer unchanged |
| `Store.EmptyRunReportsStaleExport` | project/ingest/run.py:152-155 | after a run with no clean rows, the report's total is the size of the previous run's export |
| `Store.LayeredStore.Upsert` | project/ingest/run.py:183-204 | the clean table becomes the row-by-row upsert of the batch; no other layer changes |
| `Store.LayeredStore.Save` | project/ingest/run.py:146-206 | the layers become `Persist(old layers, batch)`: raw and quarantine tables replaced only by a non-empty batch, quarantine CSV always, export only with clean rows, and the clean table upserted |
| `Store.LayeredStore.Run` | project/ingest/run.py:53-263 | one run: ingest, clean, persist; the report is summarised from the export as it stands afterwards |

## Left out

- Spreadsheet reading (`pd.read_excel`), directory creation, the CSV and parquet writers, `print`, and the Markdown report text are I/O. A file's rows, or the failure to read it, are inputs.
- The `*.xlsx` filter of the glob: the directory listing given to the model is the glob's result.
- `Store.UpsertAll`: `10_upserts.sql` is not part of this model. The comments at lines 182 and 203 say only that an upsert (`INSERT ... ON CONFLICT`) runs per row. The model assumes that the conflict action updates every non-key column unconditionally. A timestamp-guarded update would differ whenever a later run's clock reads earlier than the stored `_ingest_ts`; the model's clock is unconstrained.
- SQLite: the connection, commit and close. `00_schema.sql`, `10_upserts.sql` and `20_views.sql` are not part of this model, so the schema is assumed never to drop tables, and the monthly view is not modelled. The constant `_batch_id` column (`"demo"`) and the raw table's column order (`_ingest_ts` before `_source_file`) are not represented.
- `datetime.now`: the clock is an input, one text per file in name order.
- `Store.PersistIdempotent`: re-run idempotence is proved only for the identical batch, that is, for identical clock readings. A real re-run on an unchanged directory reads the clock again, so it rewrites `_ingest_ts` in the raw, quarantine and clean tables. The model does not prove that such a re-run leaves the export, the report figures or the clean table's other columns unchanged.
- `Store.UpsertIdempotent`: likewise proved only for the same batch, `_ingest_ts` included.
- Floating point: mean satisfaction, the percentage column, `Satisfaccion_Media` and the rounding.
- Unicode internals: NFD, `unicodedata.category`, the whitespace table, and the lowercase mapping are abstract. Lowercasing is modelled per character; context-dependent cases such as final sigma are not.
- `Text.NormalizeDropsMarks`: holds only for a lowercase mapping that emits no mark; full Unicode lowercasing of U+0130 does emit one.
- Date parsing is an abstract per-cell parser. pandas infers one format per column from its first value, and that inference is not modelled.
- Satisfaction is a whole number in the model. A fractional score such as 5.5 passes `between(1, 10)` and then makes the `astype('Int64')` cast at line 140 raise; that failure is not modelled.
- pandas `sort_values` is not stable for ties; the model uses the documented (timestamp, position) order instead.
- Report formatting of dates (`str(date)`) and of the tables; the period is kept as dates, with `—` for no data.
