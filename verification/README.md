# Sales CSV ingestion: a Dafny model

This project models the decision logic of the two Flask upload apps of the
inventory-pbl repository. Both take a point-of-sale CSV export and insert
its sales lines into a SQLite table.

- `app.py` is the current app. It checks the upload's filename and hashes
  the saved file. If the hash is already in `upload_log`, it answers
  `confirm` and writes nothing. Otherwise `process_csv` reads the file,
  finds the `日付` (date), `商品名` (product name) and `販売本数` (units sold)
  columns by header name, inserts every usable data row into `sales`, and
  logs the hash with insert-or-ignore. `confirm_upload` runs `process_csv`
  again on the saved file.
- `pbl/app.py` is the earlier variant. It applies the same filename check
  and the same row rules, but has no hash, no upload log and no
  confirmation step.

The model is functional. The database is the value
`Db(sales: seq<Sale>, log: map<hash, filename>)`. Each request handler is a
pure function from the database and the request to a `Step`, which holds
the outcome and the new database. Routing, files, hashing, decoding and
CSV tokenising are inputs to the model, not part of it.

Modules, one per concern:

| file | module | models |
|---|---|---|
| common.dfy | `Common` | `Option`, `Result` |
| py_text.dfy | `PyText` | Python's `int()` on a cell, `str()` as its inverse |
| upload_names.dfy | `UploadNames` | `allowed_file` |
| csv_rows.dfy | `Csv` | encoding fallback, `header.index` lookups, the row rules |
| store.dfy | `Store` | the `sales` and `upload_log` tables, the insert transaction |
| responses.dfy | `Responses` | what a request answers |
| uploads.dfy | `Uploads` | the request checks before the file is read |
| app.dfy | `App` | `upload_file`, `process_csv`, `confirm_upload` of app.py |
| pbl_app.dfy | `PblApp` | `upload_file` of pbl/app.py |

Some behaviour follows from the code and is easy to miss:

- Both apps wrap the row loop in one `with db:` transaction. Python's
  sqlite3 raises `OverflowError` when asked to bind an integer outside
  SQLite's 64-bit INTEGER range. The loop catches only `ValueError` and
  `IndexError`, so such a units value is not skipped. The transaction rolls
  back and the request answers with an internal error (status 500).
  `Store.InsertSales` and `Store.InsertRows` model this. In app.py the
  upload-log insert comes after the row loop, so the exception means it is
  never reached and the hash is not logged.
- Only a `UnicodeDecodeError` under `utf-8-sig` leads to the `shift_jis`
  retry. Any other read failure escapes to the outer handler as status 500:
  a missing saved file on the confirm path, or a `csv.Error`. So does a
  failure of the retry itself. `Csv.ReadRows` models this.
- The empty-row test in the loop never decides anything on its own. An
  empty row cannot reach any column, so the `IndexError` path would skip it
  anyway (`Csv.EmptyRowNeverAccepted`).
- `confirm_upload` (app.py:117-122) deletes nothing before it calls
  `process_csv` again, so the rows of a confirmed re-upload are inserted a
  second time (`App.ConfirmDuplicatesRows`).

## Model

| member | source | states |
|---|---|---|
| PyText.ParseInt | app.py:156 | `int()` on a units cell; its contract is carried by `PyText.ParseShowRoundTrip` and the lemmas below: a value is read only when the stripped cell ends in a digit, and a negative one only after a leading `-` |
| PyText.ParseShowRoundTrip | app.py:156 | `int()` reads back every integer that `str()` writes, negative ones included |
| PyText.ParseIntIgnoresPadding | app.py:156 | for any cell, adding whitespace before and after it never changes what `int()` reads |
| PyText.ParseIntSign | app.py:156 | for any digit run, no sign or a `+` reads its value and a `-` reads its negation |
| PyText.ParseIntSpaceAfterSign | app.py:156 | for any text, a `+` or `-` followed by a space is never a number |
| PyText.UnderscoreSeparatorIgnored | app.py:156 | for any two digit runs, one underscore between them reads the same as none |
| PyText.DoubleUnderscoreRejected | app.py:156 | any run holding two underscores in a row, or starting with an underscore, is not a number |
| PyText.TrailingNonDigitRejected | app.py:156 | any cell whose last character is neither a digit nor whitespace is not a number |
| PyText.ParseIntPadded | app.py:156 | examples: `' 12\n'` reads 12 and an ideographic space is skipped, but a leading U+001C makes the cell non-numeric |
| PyText.ParseIntUnderscores | app.py:156 | examples: `1_000` reads 1000; `1__0` and `_1` are refused |
| PyText.ParseIntSigned | app.py:156 | examples: `-7` and `+3` read with their sign; `- 5` is refused |
| PyText.ParseIntRejects | app.py:156 | examples: the empty cell and `12a` are refused |
| PyText.ParseIntFullwidth | app.py:156 | example: fullwidth `１２` reads 12 |
| UploadNames.AllowedFile | app.py:48-51 | an accepted name ends in `.` followed by `csv` in some letter case; `UploadNames.AllowedFileIff` gives both directions |
| UploadNames.Extension | app.py:51 | `rsplit('.', 1)[1]` is the text after the last `.`: it contains no `.`, and a name has one exactly when it contains a `.` |
| UploadNames.LowerIsCsv | app.py:51 | a suffix lower-cases to `csv` exactly when it is `csv` in some mix of letter case |
| UploadNames.AllowedFileIff | app.py:48-51 | a name is accepted iff some `.` in it has no `.` after it and the text after that `.` is `csv` in any case |
| UploadNames.AllowedFileUpperCase | app.py:48-51 | `x.CSV` is accepted |
| UploadNames.AllowedFileBareExtension | app.py:48-51 | `.csv` is accepted |
| UploadNames.AllowedFileRejects | pbl/app.py:39-42 | `csv`, `x.csv.bak`, `x.` and the empty name are refused (the pbl check is the same rule) |
| Uploads.Admit | app.py:61-68 | no file field, then an empty filename, then a name `allowed_file` refuses: each gives its own refusal; otherwise the file goes on unchanged |
| Csv.ReadRows | app.py:127-135 | the `utf-8-sig` rows are used when that decoding works; only a decode error there falls back to `shift_jis`; any other failure yields no rows |
| Csv.IndexOf | app.py:142-144 | `header.index(name)` is the first position holding `name`, and fails exactly when `name` is absent |
| Csv.ResolveColumns | app.py:140-146 | the columns resolve iff all three names are in the header, each at its first occurrence; otherwise the error names the first missing one in lookup order |
| Csv.ParseSales | app.py:127-162 | unreadable input, zero rows and a missing column are three distinct errors; otherwise the batch is the extraction of the rows after the header |
| Csv.Extract | app.py:150-162 | the row loop yields at most one sale per data row; `Csv.ExtractSelectsInOrder` states which rows and in what order |
| Csv.ExtractSelectsInOrder | app.py:150-162 | the extracted sales are exactly the data rows that are non-empty, reach all three columns and have an integer units cell, each converted, in source order |
| Csv.ExtractConcat | app.py:150-162 | each row is decided on its own: extracting two pieces of input and concatenating the results equals extracting the whole |
| Csv.EmptyRowNeverAccepted | app.py:151-152 | an empty row is never inserted |
| Csv.HeaderNeverAccepted | app.py:140-150 | the header row could not pass as a data row, since its units cell is the column name |
| Csv.ExtractExample | app.py:140-162 | with reordered and repeated header names, the first `日付` is used; an empty row, a non-numeric units cell and a short row are each skipped |
| Store.InsertSales | app.py:148-162 | the batch is appended after the existing sales iff every units value fits SQLite's 64-bit INTEGER; otherwise nothing is |
| Store.InsertRows | app.py:149-162 | the row-by-row loop with rollback commits iff every extracted value fits, and then leaves the same table as the one-step insert; on rollback the table is unchanged |
| Store.LogUpload | app.py:164-167 | after logging, the hash is present; an already-logged hash keeps its entry; other entries never change |
| Store.LogUploadIdempotent | app.py:39 | because `file_hash` is UNIQUE and the insert ignores conflicts, logging the same hash twice equals logging it once |
| Responses.FromParseError | app.py:124-172 | a read failure is an internal error; an empty file and a missing column are validation errors naming the cause |
| App.ProcessCsv | app.py:124-172 | success iff the file parses and every value fits; on success the batch is appended and the hash logged with insert-or-ignore; a parse failure answers as its error says; a value outside 64 bits answers an internal error; on any failure the database is unchanged; never asks for confirmation |
| App.UploadFile | app.py:58-99 | a refused request changes nothing; an already-logged hash answers `Confirm` with the saved filename and hash and changes nothing; a new hash goes to `process_csv` with that filename and hash |
| App.ConfirmUpload | app.py:117-122 | reprocessing never deletes or reorders existing sales and never drops a logged hash |
| App.EmptyFileRefused | app.py:137-138 | zero decoded rows is a validation error and the database is unchanged |
| App.MissingColumnRefused | app.py:140-146 | a header missing any required name is a validation error naming the first missing one, and the database is unchanged |
| App.ProcessAppendsAcceptedRows | app.py:148-169 | on success the old sales are a prefix of the new table, at most one sale per data row is added, the additions are exactly the accepted data rows in order, and the hash is logged |
| App.ReprocessKeepsLog | app.py:164-167 | processing a hash that is already logged leaves the upload log as it was |
| App.HeaderOnlySucceeds | app.py:148-169 | a file with the columns but no data rows still succeeds, adding no sales and logging the hash |
| App.ReuploadAsksConfirmation | app.py:78-90 | uploading content that was just accepted again answers `Confirm` and changes nothing |
| App.ConfirmDuplicatesRows | app.py:117-122 | confirming such a re-upload appends the same batch again: the table ends with it twice, and the log is unchanged |
| PblApp.UploadFile | pbl/app.py:49-110 | success iff the request is admitted, the file parses and every value fits; on success the batch is appended; a refused request, a parse failure and a value outside 64 bits each answer their own error (validation, as the parse error says, internal); otherwise the table is unchanged; never asks for confirmation |
| PblApp.SameExtractionAsApp | pbl/app.py:63-108 | for an admitted file, pbl/app.py gives the same answer and the same sales table as app.py's `process_csv` |
| PblApp.EmptyFileRefused | pbl/app.py:76-77 | zero decoded rows is a validation error and nothing is inserted |
| PblApp.MissingColumnRefused | pbl/app.py:79-86 | a header missing any required name is a validation error naming the first missing one, and nothing is inserted |
| PblApp.UploadAppendsAcceptedRows | pbl/app.py:88-105 | on success the old sales are a prefix, and the additions are exactly the accepted data rows in source order, at most one per data row |
| PblApp.ResubmissionDoubles | pbl/app.py:58-105 | with no duplicate gate, submitting the same file twice inserts its batch twice |

## Left out

- Flask plumbing is not modelled: routes, `request`, `jsonify`, the message
  texts and the HTTP status codes (they appear only as the outcome
  constructors). `file.save` and `show_data`/`index` are out too.
- `secure_filename` is a library call. Its result is the `savedName` input
  of `Uploads.FilePart`.
- The MD5 hash is a library call. The model takes the hash as an opaque
  string input and claims nothing about collisions.
- Text decoding and `csv.reader` are library behaviour. Each decoding
  attempt is an input: the rows it gives, or how it fails.
- An exception from the hash computation or from the duplicate-gate query
  (app.py:73-96) answers status 500. It is not modelled, because it depends
  only on I/O.
- A missing `filename` or `file_hash` form field on the confirm route fails
  inside Flask before `process_csv` runs. It is not modelled.
- Row ids, `uploaded_at` timestamps, schema creation and connection
  handling are not modelled. The order of `sales` stands for id order.
- PyText.ParseInt: Python's `int()` also accepts the decimal digits of
  scripts other than ASCII and fullwidth, such as Arabic-Indic. Cells in
  those scripts are treated as non-numeric here.
- PyText.ParseInt: recent Python versions refuse a decimal string of more
  than 4300 digits with `ValueError`, leading zeros included, so the row
  would be skipped. The model has no such limit and parses the cell. When
  the value is outside the 64-bit range, the model answers with an internal
  error where Python skips the row. When the value fits, as in a cell of
  4301 zeros followed by `1`, the model inserts the row that Python skips.
- UploadNames.Lower: only ASCII letters are lowered. `allowed_file` still
  gives the same verdict, because no non-ASCII character lower-cases to
  `c`, `s` or `v`.
- The client script pbl/static/js/script.js is browser code and is not
  modelled. Before posting it runs its own test: MIME type `text/csv`, or a
  name ending in lower-case `.csv`.
- Requests are modelled one at a time. In app.py the gate query
  (app.py:78-81) and the insert transaction (app.py:148-167) use separate
  connections, and Flask serves requests on threads. Two simultaneous
  uploads of the same new content can therefore both pass the gate and
  both insert their rows, leaving one log entry.
- App.ReuploadAsksConfirmation: holds only for requests that run one after
  another, for the reason in the line above.
