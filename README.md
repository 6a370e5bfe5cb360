# Chunked CSV-to-SQLite import, modelled in Dafny

This project models `import_with_progress` in `preprocess/create_db.py`. The function
loads a large CSV or TSV file into one SQLite table, chunk by chunk, and shows a
progress counter while it does so. The model covers the decisions the function
makes around its library calls:

- the separator is sniffed from the header line: tab if the line has a tab, comma otherwise;
- the table is dropped and the drop committed before any chunk is written;
- chunk 0 is written with `if_exists='replace'`, every later chunk with `'append'`;
- after each chunk the progress counter moves by `min(chunksize * ncols * 8, file_size - n)` and the connection commits;
- the rows are counted with `SELECT COUNT(*)`;
- among the first three sampled columns, those whose dtype is `int64`, `float64` or `datetime64[ns]` get an index `idx_<table>_<column>`;
- indexing errors are swallowed, every other error ends the import, and an opened connection is always closed.

Modules, one per component of the function:

- `Wrappers` (`wrappers.dfy`): `Option`.
- `Csv` (`csv.dfy`): what the CSV reader produces. The sampled columns with their dtype names, and a chunk sequence that may end by raising, are taken as given values.
- `Delimiter` (`delimiter.dfy`): the separator choice.
- `Progress` (`progress.dfy`): the clamped byte counter (`pbar.n`).
- `Sqlite` (`sqlite.dfy`): the database file as a value `DbState`. It holds tables of rows and named single-column indexes. The class `Connection` has methods for the statements the import issues, each specified by a function on `DbState`. As in SQLite, table and index names are compared up to ASCII case (the state is keyed by the lower-cased name), and a dropped table takes its indexes with it. `CREATE INDEX IF NOT EXISTS` first checks that the table exists, then raises when a table already has the index's name, does nothing when an index of that name exists, and finally checks the column.
- `Loading` (`loading.dfy`): the replace-then-append chunk loop. `Load` specifies it, and the method `LoadChunks` implements it with loop invariants.
- `Indexing` (`indexing.dfy`): candidate selection and the index loop. `IndexAll` specifies it, and the method `CreateIndexes` implements it.
- `Importer` (`importer.dfy`): the orchestration. `Run` is the whole import as a function of the prior database file and the input. `ImportWithProgress` is the imperative version, proved equal to `Run`. The lemmas state idempotence, the row count, partial imports, the empty reader and the indexes.

Behaviour of the code worth noting:

- An indexing error ends the whole index loop (lines 70-78), so the remaining candidates get no index and the final commit is skipped. Per-index skipping is not what the code does.
- A reader that yields no chunk leaves the table dropped (lines 38 and 63). `SELECT COUNT(*)` then raises, and the import ends with a reported error instead of an empty table. A header-only file still produces an empty table when the reader yields one empty chunk, and the model covers both cases.
- Qualifying dtypes (line 72) are the three exact names `int64`, `float64` and `datetime64[ns]`. Other integer, float or timestamp dtypes do not qualify.

## Model

| member | source | states |
|---|---|---|
| Delimiter.Separator | preprocess/create_db.py:18-23 | the separator is tab exactly when the header line has a tab at some position, and comma otherwise |
| Progress.Step | preprocess/create_db.py:57 | from a counter in [0, file_size] the step is non-negative and keeps the counter at most file_size; at file_size it adds 0; it never exceeds chunksize*ncols*8 |
| Progress.Counter | preprocess/create_db.py:45-57 | the counter after any number of chunks lies within [0, file_size] |
| Progress.CounterClosedForm | preprocess/create_db.py:45-57 | the counter equals min(file_size, sum over chunks of chunksize*ncols*8) |
| Progress.CounterMonotone | preprocess/create_db.py:57 | the counter never decreases as more chunks are written |
| Progress.CounterIgnoresRows | preprocess/create_db.py:57 | the counter depends on the chunks' column counts only, so a short last chunk moves it as far as a full one |
| Csv.ConcatLength | preprocess/create_db.py:49-54 | the rows of the chunks number the sum of the chunks' lengths |
| Csv.ConcatPrefix | preprocess/create_db.py:49-54 | the rows of a prefix of the chunks are a prefix of all rows: appending never removes or reorders rows |
| Sqlite.Connection.constructor | preprocess/create_db.py:26 | connecting gives an open connection to the file's current contents, with no commits yet |
| Sqlite.Connection.DropTableIfExists | preprocess/create_db.py:38 | the table, whatever the case of its name, and every index on it are gone; nothing else changes |
| Sqlite.Connection.ToSql | preprocess/create_db.py:54 | replace recreates the table with the chunk's columns and rows; append adds the rows after the existing ones, creates an absent table, and raises leaving the file unchanged when the columns differ |
| Sqlite.Connection.Commit | preprocess/create_db.py:60 | a commit is counted and the contents are unchanged |
| Sqlite.Connection.CountRows | preprocess/create_db.py:63-64 | the count is the table's number of rows, and the query raises (None) exactly when the table does not exist |
| Sqlite.Connection.CreateIndexIfNotExists | preprocess/create_db.py:74 | raises when the table is missing, when a table already has the index's name (up to case), or when the table has no such column; an existing index of that name makes it a no-op; otherwise adds the index on that column of that table |
| Sqlite.Connection.Close | preprocess/create_db.py:86-87 | the connection is closed and the file keeps its contents |
| Sqlite.DroppedIdempotent | preprocess/create_db.py:38 | dropping the table twice is dropping it once |
| Sqlite.WrittenStaysInside | preprocess/create_db.py:54 | a chunk write changes the target table and its indexes only |
| Sqlite.WithIndexStaysInside | preprocess/create_db.py:74 | an index statement on the target table changes nothing outside that table's indexes |
| Loading.Mode | preprocess/create_db.py:51 | chunk i is written with replace exactly when i is 0, and with append otherwise |
| Loading.Load | preprocess/create_db.py:49-60 | the loop writes every chunk unless a write raises, and stops at the first one that does |
| Loading.LoadFailureSticks | preprocess/create_db.py:49-60 | once a write has raised, later chunks change nothing |
| Loading.LoadFirst | preprocess/create_db.py:51-54 | chunk 0, written with replace after the drop, makes the table hold exactly its rows |
| Loading.LoadNextAppend | preprocess/create_db.py:51-54 | a later chunk is appended after the rows already committed when its columns agree, and raises otherwise |
| Loading.LoadCommitsPrefix | preprocess/create_db.py:36-60 | after the drop, the table holds exactly the rows of the chunks written, in file order, or is absent when none was; no other table or index changes; a write raises only on a chunk whose columns differ from chunk 0's |
| Loading.LoadAllRows | preprocess/create_db.py:49-54 | when all chunks share chunk 0's columns, every chunk is written and the table holds the concatenation of all their rows |
| Loading.LoadStaysInside | preprocess/create_db.py:49-54 | the chunk loop changes the target table and its indexes only |
| Loading.LoadChunks | preprocess/create_db.py:45-60 | the loop leaves the database as Load says, commits once per chunk written, and ends with the counter of the written chunks, within [0, file_size] |
| Indexing.Take | preprocess/create_db.py:71 | the slice has exactly min(len(cols), k) columns, the leading ones, unchanged and in order |
| Indexing.Indexables | preprocess/create_db.py:72 | a column is kept exactly when it is in the input and its dtype is int64, float64 or datetime64[ns] |
| Indexing.IndexablesSubsequence | preprocess/create_db.py:71-72 | the kept columns are a subsequence of the input, so the input's order is kept |
| Indexing.IndexablesAppend | preprocess/create_db.py:71-72 | filtering a concatenation gives the concatenation of the filtered parts: order and repeated columns are preserved |
| Indexing.Candidates | preprocess/create_db.py:71-72 | a column gets an index exactly when it is among the first three sampled columns and its dtype qualifies; there are at most three, and they come in the order of the first three |
| Indexing.IndexName | preprocess/create_db.py:73 | the index name is `idx_`, then the table name, then `_`, then the column name |
| Indexing.IndexNameInjective | preprocess/create_db.py:73 | within one table, columns whose names differ up to case get index names that differ up to case |
| Indexing.IndexNameAcrossTables | preprocess/create_db.py:73 | across tables names can coincide: column b_c of table a and column c of table a_b both get idx_a_b_c |
| Indexing.IndexNameNotTable | preprocess/create_db.py:73-74 | an index name is never the name of its own table, whatever the case |
| Indexing.IndexAll | preprocess/create_db.py:70-78 | tables never change and existing indexes are kept; every new index is named idx_<table>_<col> (up to case) and is on column col of the table for a candidate col; if nothing raised, an index of each candidate's name exists and no table has that name |
| Indexing.IndexAllKeeps | preprocess/create_db.py:74 | when each candidate's index name already belongs to an index and to no table, the statements change nothing and raise nothing |
| Indexing.IndexAllSucceeds | preprocess/create_db.py:70-78 | on an existing table that has every candidate column, with no table named like a candidate's index, no index statement raises |
| Indexing.IndexAllTwice | preprocess/create_db.py:74 | repeating a successful index step adds nothing (IF NOT EXISTS) |
| Indexing.IndexAllStaysInside | preprocess/create_db.py:74 | the index step changes only the target table's indexes |
| Indexing.IndexFailureSticks | preprocess/create_db.py:70-78 | once an index statement has raised, the remaining candidates are skipped |
| Indexing.CreateIndexes | preprocess/create_db.py:70-78 | the database ends as IndexAll says; the commit happens exactly when no statement raised; the error is swallowed |
| Importer.SessionStaysInside | preprocess/create_db.py:36-78 | an import on an open connection changes the target table and its indexes only |
| Importer.RunIdempotent | preprocess/create_db.py:36-60 | importing the same input twice gives the same database, outcome and commits as importing it once: no duplicated rows |
| Importer.Run | preprocess/create_db.py:11-87 | the missing-file report is given exactly when the file is missing; a connection is opened exactly when the file exists, its header is read and the database opens; without one the database is untouched and nothing is committed |
| Importer.Session | preprocess/create_db.py:28-78 | on an open connection the import never reports a missing file and fails only at the sample, the chunks or the count; it fails at the sample exactly when the sample read raises, and then leaves the file unchanged without a commit; otherwise the drop was committed |
| Importer.SessionImportedHoldsAllRows | preprocess/create_db.py:49-64 | a reported row count means every chunk was written: the table holds all rows in file order, the count is the sum of the chunk lengths, and one commit was made per chunk plus the drop's and the index step's |
| Importer.SessionFailedKeepsPrefix | preprocess/create_db.py:49-60 | when the chunk loop raises, the committed chunks stay: the table holds exactly the rows of the chunks written before the error, or is absent when none was |
| Importer.SessionNoChunks | preprocess/create_db.py:38-63 | with no chunk, the table stays dropped, and the import fails at the count (or at the reader when it raised) |
| Importer.SessionIndexes | preprocess/create_db.py:70-78 | after a reported row count, every index on the table is idx_<table>_<col> (up to case) on a candidate column col; without an index error, an index of each candidate's name exists (it may belong to another table, since names can coincide across tables) and no table has that name |
| Importer.SessionIndexesSucceed | preprocess/create_db.py:70-78 | when the sampled columns are columns of every chunk and no table has a candidate's index name, indexing does not raise |
| Importer.ImportOnConnection | preprocess/create_db.py:28-78 | the statements of the try block, in order, give the outcome, database and commits that Session specifies |
| Importer.ImportWithProgress | preprocess/create_db.py:6-87 | outcome and database are those of Run; a connection is opened exactly when the file exists, its header is read and the database opens, and it is closed on every path; chunksize defaults to 10000 |

## Left out

- CSV parsing and dtype inference by pandas: the schema sample (the first 1000 rows) and the chunk sequence are inputs. Each chunk holding at most chunksize rows, and there being ceil(R/C) chunks, is the reader's business and is not modelled.
- pandas' check that chunksize is at least 1 is not modelled as such. A reader that raises before its first chunk (`Reader([], true)`) stands for it.
- SQL text: the statements are built with f-strings and names are not quoted. Names that break the SQL, and the injection risk, are not modelled. The engine's own checks (missing table, missing column, existing index name) are modelled.
- Sqlite.Connection.ToSql: pandas decides whether the table exists by its exact name, while the model looks it up up to case as SQLite does. The two differ only when a table whose name differs from the target's only in case exists, and the drop before the loop removes such a table.
- Sqlite.Connection.ToSql: an append whose columns differ from the table's is modelled as refused. SQLite would accept a subset of the table's columns and fill the rest with NULL. Chunks of one reader all carry the header's columns, so this does not arise.
- Write errors of the engine other than mismatched columns (disk full, locked database) are not modelled separately. A chunk write is all-or-nothing, so their effect on the file matches a reader that raises before that chunk.
- Transactions and commit durability: statements act on the file directly, and commits are only counted. Python's sqlite3 module autocommits the DDL statements, and pandas commits inside `to_sql`, so this matches the file's contents.
- Cell values and SQLite column types: rows are sequences of strings.
- `os.path.getsize`, `open` and `readline` are inputs (`Source`). A file that disappears between `getsize` and `open` is not modelled.
- The tqdm bar's rendering, all console output, and the MB figure at line 14 are left out. Only the integer counter `pbar.n` is kept.
- The `__main__` block with its fixed paths (lines 89-98).
