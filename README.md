# Amazon review classifier: a verified model

This project models the deterministic core of a small review-moderation
service. It has three parts:

- a Flask service (`t65.py`). A client uploads a CSV file of product reviews
  to a storage bucket; the upload gets an id in the `csv_upload` registry.
  The registry's table definition is not in the repository; the model
  assumes an integer SERIAL id column. A later request processes the file. Reviews rated 4 or 5 are
  stored as "N/A"; every other review goes to a language model, whose
  three-line reply (`Status:`, `Reason:`, `Result:`) is parsed into a
  per-upload result table. A status request reports "processing" or the
  table's contents;
- an older batch script (`cloud_storage_reader.py`). It finds four named
  columns in a CSV header, classifies each row and appends
  (review, status, reason) to an `analysis` table;
- a table-name sanitiser (`aivahub-build_002.py`). It keeps only the
  alphanumeric characters of a spreadsheet name.

The language model, the database, the bucket and the start-up connection are
parameters or state of the model. The classifier is a function
`llm(n, review)` giving the reply to the n-th call. A connection or chat
attempt is a function from the attempt number to its outcome. The bucket, the
registry and the result tables are maps held by the class `Backend.Service`.

Modules, each in its own file:

| module | file | models |
|---|---|---|
| `Wrappers` | wrappers.dfy | `Option`, `Result` |
| `Text` | text.dfy | the Python string operations the core uses: `lower`, `strip`, `replace(p, "")`, `split`, `split(sep, 1)`, `endswith`, `isalnum`, `str(n)` |
| `Reviews` | reviews.dfy | the review text `title + ", " + body` and the classifier's reply |
| `AnswerParser` | answer_parser.dfy | the parse and default of a classifier reply |
| `Ingestion` | ingestion.dfy | header resolution and the row loop of `process_csv_and_openAI`, as a specification over the rows |
| `Upload` | upload.dfy | upload validation, `os.path.splitext` and the collision-free blob name |
| `Retry` | retry.dfy | `connect_to_database` with the exit after it, and `completion_with_retry` |
| `Backend` | backend.dfy | the service's state and its route handlers |
| `CloudReader` | cloud_reader.dfy | the batch script |
| `TableName` | table_name.dfy | the table-name sanitiser and the first-row review |

Where the code and its written description disagree, the model follows the
code:

- `GET /status/<id>` and `GET /process/<id>` with an unknown integer id do
  not answer 400 or 404. `fetchone()` returns None and indexing it raises a
  TypeError, which the handlers do not catch, so the answer is 500.
- An id that is not an integer, such as "abc", makes the SELECT itself fail.
  The lookup functions catch that database error and return an error pair
  (t65.py:227-229, 317-319). `GET /status/abc` then answers 200
  "processing", since the pair is not "completed". `GET /process/abc` passes
  the pair on as a file name; the storage call fails with an error that is
  not a database error, so the answer is 500.
- `GET /process/<id>` ignores what `process_csv_and_openAI` returns. A file
  without Title, Body and Rating columns still answers 200 "complete". Its
  data is the placeholder sentence only if the result table was empty;
  otherwise it is the rows stored by earlier runs.
- The placeholder "CSV contains 4-5 ratings only" is sent only when the
  result table is empty. A file of 4 and 5 star reviews gets one "N/A" entry
  per row instead (`Backend.HighRatingsAreNotPlaceholder`).

## Model

| member | source | states |
|---|---|---|
| `Text.Lower` | t65.py:358 | `lower()` keeps the length and maps each character to its lower-case form |
| `Text.LowerOfLower` | t65.py:423 | a string without upper-case letters is unchanged by `lower()` |
| `Text.Strip` | t65.py:419 | `strip()` yields a string with no surrounding whitespace, no longer than its input |
| `Text.StripPadded` | t65.py:419 | `strip()` removes exactly the whitespace around a stripped string |
| `Text.StripIdempotent` | t65.py:419-420 | stripping twice is stripping once |
| `Text.FindFirst` | cloud_storage_reader.py:109 | the first occurrence of a substring, or None exactly when there is none |
| `Text.RemoveAll` | t65.py:419 | `replace(pat, "")` never lengthens its input |
| `Text.RemoveAllAbsent` | t65.py:419 | `replace` leaves a string without the pattern unchanged |
| `Text.RemoveAllLeading` | t65.py:419 | an occurrence at the front is dropped and scanning resumes after it |
| `Text.Split` | t65.py:418 | `split("\n")` gives at least one piece, none containing the separator |
| `Text.SplitFirst` | t65.py:418 | the first piece runs to the first separator |
| `Text.JoinSplit` | t65.py:418 | joining the pieces with the separator gives back the input |
| `Text.SplitCount` | t65.py:418-420 | there is a second piece (`lines[1]`) exactly when the reply contains "\n" |
| `Text.SplitOnce` | cloud_storage_reader.py:109 | `split(sep, 1)` gives one piece exactly when `sep` is absent; otherwise two pieces around the first occurrence |
| `Text.NatToString` | t65.py:133 | `str(n)` is a non-empty string of decimal digits |
| `Text.NatToStringInjective` | t65.py:133 | different counters print differently |
| `Reviews.ReviewText` | t65.py:390 | the review text is the title, then ", " at the title's end, then the body |
| `Reviews.ShorterTitleExposesSeparator` | t65.py:390 | if two review texts agree and one title is shorter, the longer title contains ", " right after the shorter one's length |
| `Reviews.ReviewTextDecomposes` | t65.py:390 | when neither title contains ", ", equal review texts have equal titles and equal bodies |
| `AnswerParser.ParseAnswer` | t65.py:418-438 | the parse raises IndexError exactly when the reply has no "\n"; a parsed status is never "In Violation"; a parsed reason is stripped |
| `AnswerParser.NormalizeStatus` | t65.py:427-428 | "In Violation" becomes "Violation"; every other status is kept, so the result is never "In Violation" |
| `AnswerParser.DefaultResult` | t65.py:430-439 | the default result is one of "no", "yes", "maybe": "no" exactly for Compliant, "yes" exactly for Violation |
| `AnswerParser.StatusOf` | t65.py:419 | the status read from the first line is stripped and never "In Violation" |
| `AnswerParser.ReasonOf` | t65.py:420 | the reason read from the second line is stripped and no longer than the line |
| `AnswerParser.ResultOf` | t65.py:423 | the result read from the third line has no upper-case letter and is no longer than the line |
| `AnswerParser.TwoLineReply` | t65.py:418-439 | a two-line reply: status and reason from the two lines, result defaulted from the rewritten status |
| `AnswerParser.ThreeLineReply` | t65.py:418-439 | with three or more lines, a non-empty third line gives the result and an empty one falls back to the default; later lines are ignored |
| `AnswerParser.LabelledLine` | t65.py:419-420 | removing the label from "label field" and stripping gives back the field |
| `AnswerParser.StatusLine` | t65.py:419 | the status line of a clean field parses back to it |
| `AnswerParser.ReasonLine` | t65.py:420 | the reason line of a clean field parses back to it |
| `AnswerParser.ResultLine` | t65.py:423 | the result line of a clean lower-case field parses back to it |
| `AnswerParser.RenderThenParse` | t65.py:418-439 | round trip: parsing the reply the prompt asks for gives back the triple |
| `AnswerParser.ViolationRendered` | t65.py:398-413 | the verdict (Violation, contains profanity, yes) is written in the asked-for format as "Status: Violation\nReason: contains profanity\nResult: yes" |
| `AnswerParser.ViolationRenderable` | t65.py:418-439 | that verdict's fields are clean: no line break, no surrounding space, no label text |
| `AnswerParser.ViolationExample` | t65.py:418-439 | the reply "Status: Violation\nReason: contains profanity\nResult: yes" is stored as (Violation, contains profanity, yes) |
| `AnswerParser.InViolationDefaultsToYes` | t65.py:427-435 | "In Violation" is rewritten before the default is chosen, so a two-line reply gets "yes" |
| `AnswerParser.CompliantDefaultsToNo` | t65.py:430-432 | a compliant two-line reply gets result "no" |
| `AnswerParser.BlankResultLine` | t65.py:423-430 | a non-empty third line that strips to "" gives result "", not the default |
| `Ingestion.RolesOf` | t65.py:357-368 | there are no roles, and processing stops early, exactly when title, body or rating has no column; otherwise each role's column is in the header and lower-cases to its key |
| `Ingestion.RoleColumn` | t65.py:357-363 | the column chosen for a role is in the header and its lower-cased name is the key; there is none exactly when no column's lower-cased name is the key |
| `Ingestion.LastMatch` | t65.py:357-363 | the last column whose lower-cased name is the key, or None exactly when no column matches |
| `Ingestion.ResolveColumns` | t65.py:357-363 | the header loop picks, for each role, the last column matching it case-insensitively |
| `Ingestion.LastCaseInsensitiveMatchWins` | t65.py:357-363 | a matching column with no later match is the one chosen |
| `Ingestion.RolesAreDistinctColumns` | t65.py:357-363 | no column fills two roles |
| `Ingestion.AfterCall` | t65.py:415-442 | a classifier call adds one to the count; the run aborts exactly when the call raised or the reply has no "\n", and then keeps its records; otherwise it appends one record for this row's review |
| `Ingestion.Step` | t65.py:374-442 | one row makes at most one call and appends at most one record |
| `Ingestion.RunRows` | t65.py:374-442 | the loop makes at most one call and stores at most one record per row |
| `Ingestion.StepShape` | t65.py:374-442 | one row appends at most one record, for its own review, and makes at most one classifier call |
| `Ingestion.RunRowsSnoc` | t65.py:374-442 | the rows are processed in file order, and an escaped exception stops the loop |
| `Ingestion.HasText` | t65.py:380-382 | a row has text exactly when the title and body cells are both present and not None |
| `Ingestion.SkipsClassifier` | t65.py:385 | the classifier is skipped exactly when the rating is the one-character string "4" or "5" |
| `Ingestion.RowWithoutTextIsSkipped` | t65.py:380-382 | a row with no title or no body changes nothing, whatever its rating |
| `Ingestion.HighRatingIsNotClassified` | t65.py:384-393 | a row rated exactly "4" or "5" adds one N/A record and makes no classifier call |
| `Ingestion.OtherRowIsClassified` | t65.py:394-442 | any other row makes one call; a raised call or a reply without "\n" ends the run, otherwise one record with the parsed verdict is added |
| `Ingestion.AbortIsFinal` | t65.py:415-420 | once an exception escapes, later rows change nothing |
| `Ingestion.OneMoreRow` | t65.py:374-442 | one more row extends the records and does not lower the call count |
| `Ingestion.RecordsOnlyGrow` | t65.py:374-442 | records are only appended: those of any prefix of the file are a prefix of the whole file's |
| `Ingestion.BodiesAppend` | t65.py:392 | concatenating record lists concatenates their review texts |
| `Ingestion.ReviewedSnoc` | t65.py:374-442 | the reference count of reviews and of classifier rows grows by the last row's share |
| `Ingestion.StepBodies` | t65.py:374-442 | a step that does not abort adds the row's review, if it has one |
| `Ingestion.CompletedRunShape` | t65.py:374-442 | a completed run stores one record per row with text, in file order, and makes one call per such row not rated 4 or 5 |
| `Ingestion.FiveThenTwo` | t65.py:374-442 | rows rated 5 then 2: an N/A record, then a classified record, and one call |
| `Ingestion.ThreeRowExample` | t65.py:374-442 | rows rated 5, 2, 3: three records in order, the first N/A, and two calls |
| `Ingestion.AllHighRatings` | t65.py:384-393 | a file of 4 and 5 star rows with text makes no call and stores an N/A record per row |
| `Upload.CheckUpload` | t65.py:109-121 | an upload is refused for no file, then a name not ending in ".csv", then zero size, each exactly when it applies, and accepted otherwise |
| `Upload.DotCsvAlonePasses` | t65.py:113 | ".csv" alone passes the extension check, and the check is case-sensitive |
| `Upload.LastIndexOf` | t65.py:127 | the last index of a character, or -1 |
| `Upload.SplitExt` | t65.py:127 | `os.path.splitext`: root and extension concatenate to the path; the extension is empty or one dot followed by no dot or '/'; it is non-empty exactly when some dot has no '.' or '/' after it and a non-dot character before it in its path component, and then it starts at that dot |
| `Upload.ExtensionOnlyAtLastDot` | t65.py:127 | such a dot can only be the last dot of the path, so the extension is unique |
| `Upload.CsvExtensionAt` | t65.py:127 | ".csv" after a non-dot character with no '/' after it is an extension |
| `Upload.CsvExtension` | t65.py:127 | any name whose last path component holds a non-dot character, with ".csv" appended, splits into that name and ".csv" |
| `Upload.DotFileHasNoExtension` | t65.py:127 | ".csv" has no extension |
| `Upload.RejectionMessage` | t65.py:112-163 | each refusal reason has its own message: "No file provided", "File type mismatch, CSV files only." or "Empty file provided" |
| `Upload.Probe` | t65.py:129-134 | a probed name starts with the root and ends with the extension; the first probe is exactly root + extension, and later ones put "-" and decimal digits between them |
| `Upload.ProbeInjective` | t65.py:130-134 | the rename loop never tries the same name twice |
| `Upload.ChooseBlobName` | t65.py:129-134 | the chosen name is not in the bucket, and it is the original name if free, otherwise "root-k.ext" for the least free k >= 1 |
| `Retry.ConnectToDatabase` | t65.py:51-72 | up to ten tries, stopping at the first success; None only after ten failures |
| `Retry.StartupExit` | t65.py:78-80 | exit status 1 exactly when there is no connection |
| `Retry.Startup` | t65.py:51-80 | start-up exits with status 1 exactly when all ten tries fail |
| `Retry.CompletionWithRetry` | t65.py:84-98 | the first content is returned; other errors escape at once; the fourth rate-limit error is re-raised; at most four calls |
| `Backend.GptRows` | t65.py:240-250 | one entry per stored row, in order, with status, reason and lower-cased result |
| `Backend.GetGptData` | t65.py:231-252 | None exactly when the table has no rows, otherwise the entries of `GptRows` |
| `Backend.PayloadOf` | t65.py:175-178 | the placeholder, with its fixed sentence, is sent exactly when the table has no rows; otherwise the data is the table's entries |
| `Backend.ReadsAsInteger` | t65.py:211-229 | the id SELECT succeeds for every decimal printing of a natural number |
| `Backend.IssuedReadAsIntegers` | t65.py:191-203 | every id the registry issues is a non-empty string of decimal digits |
| `Backend.HighRatingsAreNotPlaceholder` | t65.py:384-393 | a file of only 4 and 5 star rows reports one ("N/A", "N/A", "n/a") entry per row, not the placeholder |
| `Backend.MarkCompleted` | t65.py:448-452 | the completed update changes only that id's status and keeps the registry's ids |
| `Backend.MarkCompletedIdempotent` | t65.py:448-452 | completing twice is completing once |
| `Backend.IssueNext` | t65.py:191-203 | the next SERIAL id is new, and issuing it adds exactly that id |
| `Backend.Service.constructor` | t65.py:191-199 | the service starts with an empty bucket, registry and tables, and the SERIAL counter at 1 |
| `Backend.Service.UploadToGcs` | t65.py:106-163 | a refused upload answers 400 with its message and changes nothing; an accepted one stores the file under the first free name and registers a fresh id as processing |
| `Backend.UploadKeepsConsistent` | t65.py:139-158 | storing a file and registering it under the next id keeps the service consistent: every registered id issued, every table's id registered, every registered file in the bucket, every completed upload with a table |
| `Backend.Service.Register` | t65.py:139-158 | stores the file, registers it under the next SERIAL id, which was not registered before, as processing, and leaves the tables alone |
| `Backend.ProcessingKeepsConsistent` | t65.py:337-452 | for a registered id, giving it a table and possibly marking it completed keeps every table's id registered, every registered file in the bucket, every registered id issued and every completed upload with a table |
| `Backend.Service.ProcessCsvAndOpenAI` | t65.py:321-458 | for a registered id, keeps those four facts; creates the table if absent; without the three columns it stops there; otherwise it appends the run's records and marks the upload completed only if the run reached the end |
| `Backend.Service.RunAndComplete` | t65.py:370-452 | the table gains the run's records; an aborted run leaves the registry as it was, a finished one marks the id completed; bucket and id counter are unchanged |
| `Backend.Service.ProcessRows` | t65.py:374-442 | the loop stores the records of `RunRows` and reports whether an exception escaped |
| `Backend.Service.ProcessRow` | t65.py:376-442 | one row does what `Step` says to the table and the call count |
| `Backend.Service.InsertReply` | t65.py:415-442 | a raised call or a reply without "\n" escapes; otherwise the parsed record is inserted |
| `Backend.Service.ProcessCsv` | t65.py:166-188 | an unknown id or missing blob answers 500 and changes nothing; otherwise the file is processed and the answer is 200 with the table's data, or 500 if the run raised; the bucket and the id counter never change |
| `Backend.Service.GetStatus` | t65.py:211-284 | "" answers 404; an id that is not an integer answers 200 "processing"; an unknown integer id answers 500; a status other than completed answers "processing"; completed answers the table's data |
| `CloudReader.IndexOf` | cloud_storage_reader.py:65 | `header.index(name)`: the first exact match, None exactly when absent |
| `CloudReader.ColumnIndices` | cloud_storage_reader.py:65 | all four indices, first exact matches, or the first missing name |
| `CloudReader.Pick` | cloud_storage_reader.py:82 | the cells at the indices, None exactly when the row is too short |
| `CloudReader.SplitStatusReasonAsWritten` | cloud_storage_reader.py:109 | the split as written: it fails exactly when the separator is in the reply but not in the stripped reply |
| `CloudReader.EmptyReasonFailsToUnpack` | cloud_storage_reader.py:109 | "Compliant\nReason: " makes the as-written split fail |
| `CloudReader.SplitStatusReason` | cloud_storage_reader.py:109 | status + separator + reason is the stripped reply and the status holds no separator; without a separator the pair is (reply, "") |
| `CloudReader.StrippedOccurrence` | cloud_storage_reader.py:109 | a substring of the stripped reply is a substring of the reply |
| `CloudReader.CorrectedSplitAgrees` | cloud_storage_reader.py:109 | wherever the as-written split succeeds, the corrected one gives the same pair |
| `CloudReader.RowOutcome` | cloud_storage_reader.py:81-109 | a row fails only because it is too short (exactly when a column index is past its end), because the call raised, or because the as-written split cannot be unpacked |
| `CloudReader.RowOutcomeMeaning` | cloud_storage_reader.py:82-118 | a stored row holds the review from its Title and Body cells and the pair the as-written split gives for the reply |
| `CloudReader.ReadRows` | cloud_storage_reader.py:81-119 | a run without failure inserts one row per data row; a failed run inserts fewer, and its failure is a short row, a raised call or an unpack error at the first row not inserted |
| `CloudReader.ReaderRun` | cloud_storage_reader.py:57-119 | an empty file fails with no header and nothing else does; a missing column fails exactly when one of the four names is not in the header, naming it and inserting nothing; at most one row is inserted per data row |
| `CloudReader.ReadRowsSnoc` | cloud_storage_reader.py:81-119 | the rows are read in file order, and a failure stops the loop |
| `CloudReader.FailureIsFinal` | cloud_storage_reader.py:81-119 | after a failure, later rows are never read |
| `CloudReader.ShapedSnoc` | cloud_storage_reader.py:81-119 | one more row keeps the shape below |
| `CloudReader.ReadRowsShape` | cloud_storage_reader.py:81-119 | one insert per data row, in order, up to the first failing row, which is the reported failure |
| `CloudReader.EmptyReasonEndsRun` | cloud_storage_reader.py:105-119 | a row whose reply is "Compliant\nReason: " ends the script at that row with the unpack error, keeping the rows inserted before it |
| `CloudReader.AnalysisTable.constructor` | cloud_storage_reader.py:112-119 | the table starts empty |
| `CloudReader.AnalysisTable.Run` | cloud_storage_reader.py:57-119 | the table gains exactly the rows `ReaderRun` inserts, and the run reports the failure that stopped it |
| `CloudReader.AnalysisTable.InsertRows` | cloud_storage_reader.py:81-119 | the loop appends exactly the rows `ReadRows` inserts and stops with its failure |
| `CloudReader.AnalysisTable.InsertRow` | cloud_storage_reader.py:82-118 | one pass classifies one row with the as-written split and either appends the row or stops with that row's failure |
| `TableName.Sanitize` | aivahub-build_002.py:39 | the table name is no longer than the name and every character is alphanumeric |
| `TableName.SanitizeIsSubsequence` | aivahub-build_002.py:39 | the table name keeps the name's characters in order |
| `TableName.SanitizeConcat` | aivahub-build_002.py:39 | sanitising distributes over concatenation |
| `TableName.SanitizeKeepsAlnum` | aivahub-build_002.py:39 | an alphanumeric name is unchanged |
| `TableName.SanitizeIdempotent` | aivahub-build_002.py:39 | sanitising twice is sanitising once |
| `TableName.SanitizeEmpty` | aivahub-build_002.py:39 | the table name is empty exactly when no character is alphanumeric |
| `TableName.SanitizeExample` | aivahub-build_002.py:39 | "Q-1" becomes "Q1" |
| `TableName.FirstRowReview` | aivahub-build_002.py:63-69 | None exactly when the table is empty; otherwise "title, body"; a NULL title makes the text start with "None, " and a NULL body makes it end with "None" |
| `TableName.FirstRowReviewDecomposes` | aivahub-build_002.py:63-69 | when neither printed title contains ", ", equal review texts come from equal printed titles and bodies |

## Left out

- Unicode: `lower`, `strip` and `isalnum` are modelled on ASCII (whitespace is space and the control characters 9-13 and 28-31).
- CSV tokenising by Python's `csv` module: a file is given as field names and rows (`Ingestion.CsvFile`), or as rows of cells for the batch script. `detect_column_count` reads a file and is not modelled.
- The language model, langchain and the prompt templates (t65.py:398-413, cloud_storage_reader.py:86-103): the reply is the parameter `llm`. guide.py holds only a prompt string and is not part of this model.
- Google Cloud Storage calls and the `/tmp` scratch file: the bucket is the map `Backend.Service.blobs`, and `ProcessCsvAndOpenAI` receives the stored file.
- Postgres connections, cursors and SQL text: the registry and the result tables are maps. Table rows are read back in insertion order. The `timestamp_column` default is not modelled.
- Database errors: no model operation raises one, except the failed id SELECT for an id that is not an integer. That one is caught at t65.py:227-229 and 317-319, and `GetStatus` and `ProcessCsv` model the pair those lines return. The other handlers (t65.py:205-207, 254-256, 456-458) are never reached. Every handler returns a pair, never None, so `uuid is None` (t65.py:159-160) and `new_filename is None` (t65.py:187-188) cannot happen.
- Ids are an integer SERIAL counter printed in decimal; this is an assumption, since the registry's table definition is not in the repository. How Postgres reads an id as an integer is not modelled: a sign, surrounding blanks, leading zeros (such as "01") and overflow. A string of digits that is not an issued id is treated as unknown.
- `time.sleep` in both retry loops, and the log lines printed throughout.
- Flask routing, JSON encoding, CORS, the Celery configuration and the shared global connection under concurrent requests.
- The Postgres error handler around the batch script (cloud_storage_reader.py:122-124) and its guidelines query (cloud_storage_reader.py:70-78) are not modelled.
- TableName.FirstRowReview: aivahub-build_002.py:63-69 is never reached as written. `table_name` is local to `create_table`, so line 64 raises NameError, which the `except psycopg2.Error` handler (aivahub-build_002.py:113) does not catch. The model states what the lines would compute if `table_name` were in scope.
- CloudReader.AnalysisTable.Run: reports the failure that stopped the run. For NoHeader and MissingColumn the script does not end with it: `cursor` is first bound at cloud_storage_reader.py:68, so the `finally` block (cloud_storage_reader.py:126-130) raises NameError from `cursor.close()`, replacing the StopIteration or ValueError. Either way the table gains no rows.
- aivahub-build_002.py beyond lines 39 and 63-69 is database and model glue.
- `Retry.CompletionWithRetry`: the chat's reply is taken as its text; the `choices[0]['message']['content']` lookup is not modelled. The function is never called in the repository.

## Findings

| source | as written | input that shows it | evidently intended | confidence | as-written member | corrected member |
|---|---|---|---|---|---|---|
| cloud_storage_reader.py:109 | the separator is looked for in the unstripped reply, but the stripped reply is what is split | "Compliant\nReason: " (empty reason): strip() drops the separator's trailing space, split yields one piece and unpacking it into two names raises ValueError, ending the script | test for the separator in the text that is split, so that the split always yields two pieces | not executed | `CloudReader.SplitStatusReasonAsWritten`, `CloudReader.EmptyReasonFailsToUnpack`, `CloudReader.EmptyReasonEndsRun` | `CloudReader.SplitStatusReason`, `CloudReader.CorrectedSplitAgrees` |
