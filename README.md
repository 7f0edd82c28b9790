# Q&A review page: a verified model

The review page in `qa_review_app.py` shows reviewers one question at a time.
Each question has a model answer and a gold answer. The reviewer rates the
model answer and may write a remark. Every save merges those values into an
annotation CSV file, which sits beside the source question file. This project
models the deterministic core of the page in Dafny:

- **Saving a review** (`Review`). The identity guard runs first. The save then
  opens the annotation table, or builds a new one from the source with six
  blank annotation columns. It adds any missing annotation column and pads the
  table with blank rows up to the source length, never truncating it. It then
  writes the cells of the current row. The rating and its score are written
  only when the rating holds text, and so is the remark. The reviewer, the
  reviewer type and the date are written on every save. The save is written
  twice: as imperative Dafny over a mutable data frame (`Tables.Frame`), and as
  a function (`SaveResult`). The method is proved equal to the function.
- **Loading** (`Loading`). Loading the source file checks the three required
  columns. Loading the annotation file treats an absent or unreadable file as
  "no saved reviews".
- **Progress** (`Progress`). This covers the reviewed counter (a loop), the
  per-question status, the starting values of the rating radio and the remark
  box, and how a save changes the set of reviewed rows.
- **Session navigation** (`Navigation`). This is the session state: the current
  index, the two widget counters and the table of the last save. Navigation
  saves first and ignores the result. It then clamps the index and bumps both
  counters. A bounds repair runs before the row is shown.
- **Summary statistics** (`Stats`). These are the rating and reviewer-type
  histograms with their filters, and the number of rows with a numeric rating
  value.

A table is a list of column names plus a list of rows. Each row maps every
column name to its cell text. The empty string stands for a missing value
(pandas NaN). An empty CSV cell also reads back as a missing value. The
annotation file as a read finds it is a `FileState`: `Missing`, `Unreadable`
or `Present(table)`. The time stamp of a save is an opaque string parameter.
`save_review` fails on an unreadable annotation file, while
`load_existing_reviews` treats it as absent. In `save_review` the read inside
the `try` fails, so the save returns false (`Failed`) and does not start a new
table.

## Model

| member | source | states |
|---|---|---|
| Text.LStrip | qa_review_app.py:413-414 | the result is the suffix of the text left after a run of leading whitespace, and it does not start with whitespace |
| Text.RStrip | qa_review_app.py:413-414 | the result is the prefix of the text left after a run of trailing whitespace, and it does not end with whitespace |
| Text.StripEmptyIffBlank | qa_review_app.py:413-414 | the stripped text is empty exactly when every character is whitespace |
| Tables.BlankColumnCells | qa_review_app.py:423-428 | setting a column blank keeps the rows and the old columns in front, adds the column when it was missing, blanks it in every row, and keeps every other cell |
| Tables.BlankColumnsShape | qa_review_app.py:421-428 | setting several columns blank keeps the row count and the old columns in front, and the columns become exactly the old ones plus the listed ones |
| Tables.BlankColumnsCellAt | qa_review_app.py:421-428 | after setting several columns blank, a cell of a listed column is blank and any other cell is the old one |
| Tables.Pad | qa_review_app.py:436-438 | padding keeps the columns and the existing rows in order, gives max(rows, n) rows, and the added rows are blank in every column |
| Tables.AddMissingColumns | qa_review_app.py:431-433 | adding columns keeps the rows, keeps the old columns in front and in order, adds exactly the listed columns not already present, keeps every existing cell, and leaves added cells blank |
| Tables.Frame.Copy | qa_review_app.py:418-421 | the new frame holds the given table |
| Tables.Frame.SetBlankColumn | qa_review_app.py:423-428 | the frame becomes the table with that column blank in every row, appended when it was missing |
| Tables.Frame.AppendBlankRows | qa_review_app.py:436-438 | the frame becomes the table extended by that many all-blank rows |
| Tables.Frame.SetAt | qa_review_app.py:450-461 | the frame becomes the table with one cell replaced |
| Review.LookupFinds | qa_review_app.py:441-451 | the lookup finds nothing exactly when no option has the name; otherwise it returns the score of the first option with that name |
| Review.RatingValueMapping | qa_review_app.py:441-451 | the score written (Review.RatingValue): Excellent maps to "5", Good to "4", Fair to "3", Poor to "2", Very Poor to "1", and any other text to the blank cell |
| Review.LabelHasText | qa_review_app.py:441-447 | every rating label holds non-whitespace text |
| Review.CheckText | qa_review_app.py:413-414 | the strip-based test is true exactly when a value is given and is not all whitespace |
| Review.Reconcile | qa_review_app.py:430-438 | the reconciled table is well formed, has all six annotation columns, and has max(rows before, source rows) rows |
| Review.WrittenCells | qa_review_app.py:449-461 | rating and score are written exactly when the rating holds text, the remark exactly when it holds text, and reviewer, type and date always |
| Review.PatchRowIsUnion | qa_review_app.py:449-461 | the sequence of cell writes on a row (Review.PatchRow) equals overlaying the written cells on the row, keeping every other cell |
| Review.Merge | qa_review_app.py:430-461 | the merged table is well formed and has all six annotation columns |
| Review.SaveResult | qa_review_app.py:395-470 | the save is refused exactly when the name is empty or the type is "Select Type"; it fails exactly when the guard passes and the file is unreadable; a saved table is well formed with all six annotation columns |
| Review.OpenFrame | qa_review_app.py:417-428 | the frame opened is the file's table, or the source with the six annotation columns set blank when the file is missing |
| Review.ReconcileFrame | qa_review_app.py:430-438 | the column-adding loop and the padding turn the frame into the reconciled table |
| Review.PatchFrame | qa_review_app.py:449-461 | the conditional cell writes turn the frame into the patched table |
| Review.SaveTable | qa_review_app.py:395-470 | the imperative save returns exactly the outcome of the save function |
| Review.ReconcileCells | qa_review_app.py:421-438 | reconciliation keeps old columns in front and in order, adds only annotation columns, keeps every old cell, and is blank elsewhere |
| Review.PatchCells | qa_review_app.py:449-461 | patching (Review.Patch) keeps the columns and every other row, and changes the row exactly in the written cells |
| Review.MergeCells | qa_review_app.py:430-461 | a merged table has max(base rows, source rows) rows and the base's columns in front; each cell is the written value at the saved row, else the base's cell or blank |
| Review.MergeShape | qa_review_app.py:430-438 | a merged table has max(base rows, source rows) rows, and its columns are the base's plus the annotation columns |
| Review.MergeCellAt | qa_review_app.py:430-461 | any single cell of a merged table is the written value at the saved row, and elsewhere the base's cell or blank |
| Review.MergeOtherRows | qa_review_app.py:436-461 | every row other than the saved one keeps its old cells, its added columns are blank, and every padded row is blank in every column |
| Review.MergeRating | qa_review_app.py:441-451 | a rating with text stands at the saved row with its mapped score; a blank or absent rating leaves both cells as they were |
| Review.MergeRemark | qa_review_app.py:453-455 | a remark with text stands at the saved row; a blank or absent remark leaves the old remark |
| Review.MergeStamp | qa_review_app.py:457-461 | reviewer, reviewer type and date are stamped at the saved row on every save |
| Review.SavedRowCount | qa_review_app.py:435-438 | a saved table has max(file rows, source rows) rows, or exactly the source's rows when the file was missing, and so is never truncated |
| Review.CloneCells | qa_review_app.py:419-428 | a new table (Review.CloneWithAnnotations) keeps the source's rows, its columns in front and its non-annotation cells, and has all six annotation columns blank |
| Review.CloneBlankAt | qa_review_app.py:423-428 | in a new table every annotation cell is blank |
| Review.AddMissingColumnsPresent | qa_review_app.py:431-433 | adding columns that are all present already changes nothing |
| Review.ReconcileSettled | qa_review_app.py:430-438 | a table with all annotation columns and enough rows is reconciled to itself |
| Review.PatchTwice | qa_review_app.py:449-461 | writing the same cells twice gives the same table as writing them once |
| Review.SaveIdempotent | qa_review_app.py:395-470 | saving the same input again over the table just written writes the same table |
| Loading.MissingFrom | qa_review_app.py:291-292 | the result holds exactly the required columns that the table lacks |
| Loading.LoadData | qa_review_app.py:287-298 | a missing file gives not-found and an unparsable one a parse error; loading succeeds exactly when all three required columns exist; otherwise the error names exactly the missing columns |
| Loading.LoadExistingReviews | qa_review_app.py:313-320 | there is a saved table exactly when the file is present and parsable, and it is that file's table |
| Progress.ReviewedRows | qa_review_app.py:541-556 | the counted rows are those below both lengths whose stripped rating or remark is non-empty, and there are none without a saved table |
| Progress.CountReviewed | qa_review_app.py:541-556 | the counting loop returns the number of reviewed rows |
| Progress.ReviewedCountBounds | qa_review_app.py:541-556 | the count is at most the number of questions and of saved rows, and it is 0 without a saved table |
| Progress.IsReviewedAt | qa_review_app.py:560-567 | the status badge shows reviewed exactly when there is a saved table, the question is one of its rows, and that row's stripped rating or remark is non-empty |
| Progress.StatusAgreesWithCount | qa_review_app.py:560-567 | for a question in range, the status badge shows reviewed exactly when the counter counts that row |
| Progress.ExistingRating | qa_review_app.py:521-527 | the starting rating is the saved rating cell of the row when it is non-empty, and nothing otherwise |
| Progress.ExistingRemark | qa_review_app.py:522-531 | the starting remark is the saved remark cell of the row, or empty when there is no such row |
| Progress.IndexOf | qa_review_app.py:609-613 | the result is the first position of the text, or nothing exactly when the text is absent |
| Progress.DefaultRatingIndex | qa_review_app.py:609-613 | the default is a valid option; it is the saved label's position when that label is an option, and 0 otherwise |
| Progress.DefaultIndexOfLabel | qa_review_app.py:609-613 | the default index of the k-th label is k |
| Progress.SaveRoundTrip | qa_review_app.py:521-531 | after saving the k-th label and a remark with text, reading the row back gives that label, default index k and that remark |
| Progress.CloneUnreviewed | qa_review_app.py:419-428 | a new table has no reviewed row |
| Progress.MergeSameReviewAt | qa_review_app.py:436-461 | away from the saved row, a row is reviewed after the merge exactly when it was reviewed before |
| Progress.MergeUpdatesReviewed | qa_review_app.py:436-461 | the merge changes the reviewed set only at the saved row; that row is reviewed exactly when a rating or remark was given or it was reviewed before |
| Progress.SaveUpdatesReviewed | qa_review_app.py:541-556 | compared with the file as loaded, a save changes the reviewed set only at the saved row; that row is reviewed exactly when a rating or remark was given or it was reviewed before |
| Progress.FirstSaveCountsOne | qa_review_app.py:541-556 | the first rated save into a new file makes the counter read 1 |
| Navigation.Clamp | qa_review_app.py:481 | with at least one question the result is in range; an index in range is kept; a negative one becomes 0; one past the end becomes the last question |
| Navigation.RepairedIndex | qa_review_app.py:511-514 | with at least one question the repaired index is in range and an index in range is kept; with none it is -1 |
| Navigation.RepairIsClamp | qa_review_app.py:511-514 | with at least one question the repair is the navigation clamp |
| Navigation.Session.constructor | qa_review_app.py:327-334 | a fresh session is at question 0 with both counters at 0 and nothing saved |
| Navigation.Session.Save | qa_review_app.py:395-470 | reports whether the save succeeded; on success the file and the remembered table become the table written, and the statistics then read that table whatever was loaded at start (Stats.StatsTable); otherwise nothing changes, including the table the statistics read |
| Navigation.Session.NavigateTo | qa_review_app.py:478-483 | saves first whatever comes of it, with the same effect on the file, the remembered table and the table the statistics read; then the index becomes the clamped target, in range, and both counters rise by exactly 1 |
| Navigation.Session.RepairIndex | qa_review_app.py:511-514 | the index becomes the repaired index, in range when there is a question, and nothing else changes |
| Stats.NumericValues | qa_review_app.py:690 | the values kept are exactly the numeric ones, each with as many copies as the input has, and nothing else |
| Stats.ValueCounts | qa_review_app.py:701 | the counted values are exactly those present, each with its number of occurrences |
| Stats.Histogram | qa_review_app.py:701-714 | the lines shown are the values present and not skipped, each with its number of occurrences, at least 1 |
| Stats.RatingStats | qa_review_app.py:689-705 | the panel is hidden exactly when there is no table, no score column or no numeric score; a missing rating column stops it; otherwise it gives the number rated, which is the count of numeric scores, and one line per non-empty label with its count |
| Stats.ReviewerTypeStats | qa_review_app.py:689-714 | the panel appears exactly when the type column exists and the rating part did not stop the page on a missing rating column, with one line per type other than empty and "Select Type", with its count |
| Stats.RatingValueNumeric | qa_review_app.py:689-691 | a mapped score reads as a number exactly when the label is one of the five options |
| Stats.SavedReviewIsCounted | qa_review_app.py:685-714 | after saving one of the labels, the statistics read the table written whatever was loaded, the rating panel is shown with that label counted, and the reviewer type is counted too |

## Left out

- Rendering: CSS, markdown, metrics, buttons, balloons, error messages, the download button and the question card are UI and have no behaviour to state.
- CSV reading and writing are done by pandas. A read is the `FileState` parameter and a write is the returned table. Quoting, escaping and type inference on re-read are not modelled; for example, a re-read score can come back as `5.0`.
- A failure of the final `to_csv` write, which the `try` turns into a false return, is not modelled. A save that passes the guard with a readable or missing file always writes.
- The clock and the Asia/Dhaka time zone are left out. The save time is an opaque `stamp` parameter.
- Floating-point work is left out: the progress fraction and percentage, the mean rating, and the completion and per-label percentages.
- Stats.NumericValues: numeric coercion is approximated by a decimal grammar (an optional sign, digits, at most one point). The exponent, infinity and surrounding-whitespace forms that pandas also accepts are not modelled.
- Stats.ValueCounts: the descending-count order of the histogram lines is not modelled, only each value's count.
- Review.SaveResult: the score is written as its decimal text ("5"), where pandas holds the integer 5 until the CSV round trip.
- The data caching and the session-state object are not modelled as a framework. The session is the `Navigation.Session` class with the page's fields.
- A save at an index beyond the table, which pandas would add as a new row, is excluded by the requirement `index < |source.rows|`. Navigation and the bounds repair keep the index in range whenever the source has a question. An empty source never reaches a save: the sidebar's jump input (`qa_review_app.py:360-367`) then has a largest value of 0, below its smallest value of 1, and stops the page.
- Atomic write through a temporary file and concurrent writers: the code writes the file directly and has no such mechanism.
- The identity guard cannot be turned off: the code always requires a name and a reviewer type, so no switch for it is modelled.
