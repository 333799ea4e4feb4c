# Attendance tracker core, modelled in Dafny

The application is a Streamlit page over a Firestore collection named
`attendance`. When the data frame read from the collection is empty (no
documents, or only documents without any field) it offers a one-shot migration
of a CSV file. Otherwise it shows the documents 50 to a page in an editable
grid and writes the user's edits back. This project models the pure logic inside that
script and proves properties of it:

- **Pagination** (`Paging`, `View`): the page count `ceil(total_rows / 50)`,
  the row range `start_idx .. end_idx` of a page, and the `Attended` checkbox
  column of the shown page.
- **Cleaning before import** (`Cleaning`, `Text`): `clean_csv` (drop rows whose
  every field is missing), dropping the `Unnamed: 0` column, `to_dict('records')`,
  and the per-record comprehension that drops missing values and strips keys.
- **Migration batching** (`Batching`, `Migration`): the record loop with its
  `batch_counter` and `record_counter`, committing at 499 operations and once
  more for a non-empty remainder.
- **The `Attended` field** (`Attendance`): the display test
  `str(v).lower() in ['yes', 'نعم', 'true']` and the write-back to `"Yes"`/`"No"`.
- **Saving edits** (`Editing`): `edited_rows` becomes one merge-set per entry
  in a single batch, committed once; nothing is committed without edits.

The store is a log of committed batches of `Set(doc, data, merge)` operations
(`Store`). A document id generated by `collection.document()` is the opaque
value `AutoId(n)`, the `n`-th id generated. An explicit id is `Named(id)`.

A frame is its column labels plus rectangular rows of cells. This keeps column
order, so a record's fields are visited in the same order as in the source. That
matters when two labels strip to the same key: the later field wins, as in the
dict comprehension. A missing cell (NaN in a frame, `None` in an edit) is
`Missing`.

## Behaviour worth knowing

- `math.ceil(0 / 50)` is 0, so an empty table has no pages. Pagination only
  runs when `df.empty` is false, and that needs a document with at least one
  field. Documents without fields (a migrated row that held only its index
  becomes one) leave the frame empty, so the migration is offered again.
- Migration stores `Attended` exactly as the file has it. Every migrated record
  goes to a store-generated id.
- Saving edits uses each `edited_rows` key directly as the document id
  (`str(key)`), rendered in decimal.
- Saving edits puts every change into one batch and commits it once.

## Model

| member | source | states |
|---|---|---|
| Paging.TotalPages | app.py:156-157 | the page count is the least number of 50-row pages that holds every row (ceiling), 0 only for an empty table |
| Arithmetic.CeilDiv | app.py:157 | the result is the least count of `d`-sized parts that holds `n` items, as `math.ceil(n / d)` |
| Paging.NonEmptyHasPages | app.py:146-160 | a non-empty table has at least one page, so page 1 is a valid selection |
| Paging.ValidPage | app.py:160-162 | a page the selector allows (`min_value=1`, `max_value=total_pages`) exists only for a non-empty table and starts inside it |
| Paging.PageStart | app.py:160-162 | for every selectable page, `start_idx` lies inside the table and is a multiple of 50 |
| Paging.PageEnd | app.py:160-163 | `start_idx < end_idx <= total_rows`, at most 50 rows per page, exactly 50 on every page but the last, and the last page ends at the table's end |
| Paging.PageSlice | app.py:162-164 | the shown page holds 1 to 50 rows, and its row `j` is table row `start_idx + j` |
| Paging.PagesContiguous | app.py:162-163 | each page begins where the previous page ends |
| Paging.RowOnOnePage | app.py:157-164 | a row lies on a page exactly when that page is `row / 50 + 1`, so pages are disjoint and cover every row |
| Paging.PagesUpToIsPrefix | app.py:157-164 | pages `1..k` read in turn are exactly the table up to the end of page `k` |
| Paging.PagesCoverTable | app.py:157-164 | all pages read in turn reproduce the whole ordered table |
| View.ShownTableHasPages | app.py:146-160 | a frame that is not empty has at least one document, so page 1 is a valid selection |
| View.ShowAttended | app.py:146-169 | the checkbox column has one entry per shown row, ticked exactly when that document's `Attended` renders as a ticked token; it fails only when no document has the field |
| Cleaning.DropEmptyRows | app.py:38 | `dropna(how="all")` never adds rows; DropEmptyRowsMembers and DropEmptyRowsAppend give which rows stay and in what order |
| Cleaning.DropEmptyRowsMembers | app.py:36-39 | a row is kept exactly when it is in the input and not every field is missing |
| Cleaning.DropEmptyRowsAppend | app.py:38 | dropping rows works on each part of the table separately, so kept rows stay in their original order |
| Cleaning.DropEmptyRowsKeepsFullRows | app.py:38 | a table without empty rows is returned unchanged |
| Cleaning.CleanCsv | app.py:36-39 | `clean_csv` keeps the columns, keeps exactly the rows that are not wholly missing, and keeps the frame rectangular |
| Cleaning.CleanCsvIdempotent | app.py:36-39 | cleaning twice is cleaning once |
| Cleaning.DropColumn | app.py:55 | dropping a column keeps every row and the frame rectangular, and the label is gone |
| Cleaning.DropIndexColumn | app.py:54-55 | after the conditional drop, no `Unnamed: 0` column remains |
| Cleaning.ZipKeep | app.py:55-57 | a record read after dropping a column is the record read before, without that column's field |
| Cleaning.ToRecords | app.py:57 | record `i` pairs each column label with row `i`'s cell, in column order |
| Cleaning.PrepareRecords | app.py:52-57 | the records are the rows that survive `clean_csv`, in order, each without its `Unnamed: 0` field |
| Cleaning.CleanRecord | app.py:67 | every stored value is present and every key has no surrounding whitespace |
| Cleaning.CleanRecordHasKey | app.py:67 | every field with a present value contributes its stripped key |
| Cleaning.CleanRecordKeySource | app.py:67 | every key of the cleaned record comes from some field with a present value whose key strips to it |
| Cleaning.CleanRecordKeys | app.py:67 | a key is present exactly when some field with a present value strips to it |
| Cleaning.CleanRecordValue | app.py:67 | a present value is stored unchanged under its stripped key unless a later present field strips to the same key |
| Cleaning.IndexColumnNeverStored | app.py:54-67 | `Unnamed: 0` never reaches a record when no other column label strips to it |
| Cleaning.PaddedIndexLabelReachesRecord | app.py:54-67 | a column labelled ` Unnamed: 0` is not dropped, and its key reaches the record as `Unnamed: 0` |
| Cleaning.IndexOnlyRowBecomesEmptyRecord | app.py:52-67 | a row whose only value is its index survives `clean_csv` and is written as an empty record |
| Cleaning.EmptyRowIsNotImported | app.py:36-57 | a three-row file with one wholly empty row yields two records |
| Cleaning.KeptIffSomeFieldStored | app.py:36-67 | over the same fields, `Unnamed: 0` still included, the `pd.notna` test of `dropna(how="all")` keeps a row exactly when the record comprehension's `pd.notna` test stores at least one of its fields; after lines 54-55 drop the index column the two can differ (see `Cleaning.IndexOnlyRowBecomesEmptyRecord`) |
| Values.Truthy | app.py:126 | `bool(v)` is false for the missing value (`None`), so a change to `None` is written back as `"No"` |
| Values.Render | app.py:169 | `astype(str)` keeps a string as it is and renders a number as `str(i)`, which has no ASCII letter; a boolean lower-cases to `true`/`false` and NaN to `nan` |
| Text.Strip | app.py:67 | the result of `strip()` has no whitespace at either end |
| Text.StripShape | app.py:67 | the result of `strip()` is the middle of the string, with only whitespace before and after it |
| Text.StripFixpoint | app.py:67 | `strip()` leaves a string unchanged exactly when it has no surrounding whitespace |
| Text.StripIdempotent | app.py:67 | stripping twice is stripping once |
| Text.Lower | app.py:169 | lower-casing keeps the length and lower-cases each character |
| Text.LowerIsWord | app.py:169 | a string lower-cases to a lower-case word exactly when it spells that word in any mix of case |
| Text.LowerOfLetterless | app.py:169 | only the word itself lower-cases to a word without ASCII letters |
| Text.NatToString | app.py:122 | `str(n)` is a non-empty run of decimal digits with no leading zero, and `"0"` is the only rendering that starts with `0` |
| Text.NatToStringRoundTrip | app.py:122 | reading the digits of `str(n)` gives back `n` |
| Text.NatToStringInjective | app.py:122 | distinct numbers render as distinct strings |
| Text.IntToString | app.py:169 | `str(i)` is a minus sign exactly for negative `i`, then decimal digits without a leading zero, whose value is the magnitude of `i`; `str(0)` is exactly `"0"` |
| Text.IntToStringInjective | app.py:169 | distinct integers render as distinct strings |
| Batching.ChunkFlatten | app.py:61-82 | the committed batches hold every operation once, in input order |
| Batching.ChunkSizes | app.py:61-82 | every committed batch holds 1 to 499 operations, and only the last may hold fewer than 499 |
| Batching.ChunkCount | app.py:61-82 | `n` operations take `ceil(n / 499)` commits |
| Batching.ChunkEmptyIffNoOps | app.py:81-82 | no commit at all happens exactly when there are no operations |
| Batching.ChunkAppend | app.py:74-80 | committing after whole batches of 499 and batching the rest gives the same batches as batching everything at once |
| Migration.RecordSet | app.py:67-69 | each record is set, without merge, on the fresh id generated for it; the stored map has a key exactly when some field with a present value strips to it, and holds that field's value when no later present field strips to the same key |
| Migration.MigrationOps | app.py:66-69 | one set per record, in record order, record `i` on the `i`-th generated id |
| Migration.CommitRecords | app.py:61-82 | for any per-record operation, `record_counter` ends at the number of records and the commits made while the open batch fills to 499, plus the final commit of a non-empty remainder, are exactly the reference batching of the operations in record order |
| Migration.MigrateRecords | app.py:58-84 | `record_counter` ends at the number of records; the commits are the reference batching of one set per record, in input order, with 1 to 499 operations each; there are `ceil(n / 499)` commits, none when there is no record |
| Migration.MigratedFrameEmpty | app.py:66-104 | after a migration into an empty collection, `load_data` reads the created documents (with `_doc_id` as the index) into a frame that is `df.empty` exactly when no record had a present value |
| Migration.IndexOnlyFileIsOfferedAgain | app.py:52-104 | a file whose one row holds only its `Unnamed: 0` value is migrated into a document without fields, so the next load still finds `df.empty` and offers the migration again |
| Migration.MigrateCsv | app.py:42-84 | an unreadable file commits nothing; otherwise every non-empty row is set exactly once, in order, in batches of 1 to 499, and the counter equals the number of non-empty rows |
| Attendance.Ticked | app.py:169 | the checkbox is ticked when `str(v).lower()` is one of the three tokens; a ticked stored value is always truthy |
| Attendance.TickedExactly | app.py:169 | a value is ticked exactly when it is `yes` or `true` in any case, the Arabic `نعم`, or boolean true; never a number or a missing value |
| Attendance.TextTicked | app.py:169 | a text is ticked exactly when it spells `yes` or `true` in any mix of case, or is `نعم` as written |
| Attendance.NumberNotTicked | app.py:169 | no number is ever ticked, whatever its value |
| Attendance.WriteBackAttended | app.py:125-126 | a changed `Attended` becomes `"Yes"` exactly when it is truthy, otherwise `"No"`; other fields pass through; a change map without `Attended` is untouched |
| Attendance.ResavedExactly | app.py:125-126 | shown as a checkbox and written back, the affirmative spellings of line 169 become `"Yes"` and every other value `"No"` |
| Attendance.ResavedIdempotent | app.py:125-126 | `"Yes"` and `"No"` survive display and write-back, so the round trip is idempotent |
| Editing.EditDocRef | app.py:121-122 | the document id of an edit is a run of decimal digits whose value is its key, with no leading zero, so key 0 addresses `"0"` and key 7 addresses `"7"`, never `"07"` |
| Editing.EditDocRefInjective | app.py:121-122 | two edit keys address the same document exactly when they are equal |
| Editing.EditSet | app.py:121-129 | each entry becomes a merge-set on the document whose id is the key in decimal, with the same changed fields, other fields unchanged and `Attended` as `"Yes"` exactly when the new value is truthy, `"No"` otherwise |
| Editing.SaveEdits | app.py:107-137 | with no editor state or no edited rows nothing is committed; otherwise one merge-set per entry in entry order on distinct documents, `Attended` written back, `update_count` equal to the entry count, a single commit, and the cache cleared |
| Editing.PageEditsFitOneBatch | app.py:118-133 | edits to distinct rows of one 50-row page give at most 50 operations, below the store's 500-operation batch limit, so the unchunked save batch is accepted |

## Left out

- Streamlit UI: widgets, column configuration, hidden columns, toasts, reruns and the `st.cache_*` decorators (app.py:16-31, 89, 141-211). Only the cache clear after a save is kept, as a flag.
- Firestore client construction and credential loading (app.py:17-33). This is network and secret I/O.
- The wire behaviour of `set`, `merge` and commits. A commit is assumed to succeed; a commit that raises would end the function in the source, and that path is not modelled.
- CSV reading is an input value `ReadResult`: a frame or an error message. Pandas parsing, header de-duplication and the UTF-8-BOM export (app.py:47, 102-103, 205) are left out.
- `load_data` (app.py:90-104): the snapshot is an input sequence of `Doc`s in stream order.
- Floating-point cells: numbers are integers. The display test only needs their rendering, which for a float never lower-cases to a ticked token either.
- Other NA forms that `pd.notna` rejects (NaT, `pd.NA`) are all the one `Missing` value.
- The progress fraction, the status text and `time.sleep(0.1)` (app.py:76, 79). These are floats and timing with no correctness content.
- The debug `print(changes)` (app.py:124) and the `rerun` session toggle (app.py:137).
- Text.Lower: lower-cases ASCII letters only, not Python's full Unicode case mapping. The tokens compared against are ASCII or Arabic, and Arabic has no case.
- Values.Render: for booleans and NaN the contract states the lower-cased rendering only, which is all line 169 compares; the exact capitalisation of `True`/`False` is not promised.
