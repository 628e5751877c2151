# County health data service — a Dafny model

This project models the core of a small county-health service. The service's
one endpoint, `POST /county_data`, takes a five-digit zip code and a health
measure name. It checks the request and resolves the zip to its county and
state through a `zip_county` table. It then returns every row of
`county_health_rankings` for that county, state and measure. Four build
scripts prepare the data:

- `csv_to_sqlite.py` loads CSV files into SQLite tables, one table per file.
- `optimize_data.py` builds a trimmed zip → county dictionary and the health
  records grouped under a `county|state|measure` key.
- `api/load_data.py` builds the same two indexes from the raw rows.
- `create_test_dataset.py` samples both files down to ten zip codes and
  their counties.

Everything is stated with pure functions over immutable data. The
exceptions are the batched insert and the converter's `main`, which are
methods with loops. The modules are:

- `Wrappers`: `Option` and `Result`.
- `Text`: Python's `strip`, `lower`, `isdigit`, `join` and `split`.
- `Seqs`: order-preserving filter and filter-then-map, flatten, and a
  traversal that stops at the first exception.
- `Indexes`: the last-write-wins dictionary fold, and the grouping fold
  that opens a list for each new key and appends every value to its key's
  list.
- `Csv`: `csv.DictReader` rows over already tokenised lines.
- One module per source file: `CountyData`, `CsvToSqlite`, `OptimizeData`,
  `LoadData` and `TestDataset`.

Three behaviours of the code are easy to misread, and the model follows
the code in each:

- `get_county_from_zip` returns `fetchone()` of the zip query
  (api/county_data.py:65). A zip listed twice therefore resolves to its first
  row in table order, not its last.
- `normalize_column_name` removes every U+FEFF in a header token
  (csv_to_sqlite.py:28), not only a leading one.
- `create_table_from_csv` catches the error of a file it cannot open and
  exits with status 1 (csv_to_sqlite.py:74-76). The converter's test
  (test_csv_to_sqlite.py:91-94) expects `FileNotFoundError` to escape
  instead. The model records the error outcome `OpenFailed`.

## Model

| member | source | states |
|---|---|---|
| CountyData.TwelveMeasures | api/county_data.py:12-25 | exactly twelve distinct measure labels are accepted |
| CountyData.GetCountyFromZip | api/county_data.py:58-65 | `None` exactly when no `zip_county` row has the zip; otherwise the county, state and county code of the first such row in table order |
| CountyData.GetHealthData | api/county_data.py:67-89 | every returned row matches county, state and measure and comes from the table; every matching row appears as often as in the table |
| CountyData.GetHealthDataInOrder | api/county_data.py:72-89 | the query keeps table order: matches among earlier rows precede matches among later rows |
| CountyData.Validate | api/county_data.py:95-117 | a request passes exactly when it is JSON, is not the teapot, has truthy `zip` and `measure_name`, the zip is a five-digit string and the measure a listed label; the query then carries those two strings |
| CountyData.Lookup | api/county_data.py:122-137 | the only results are 404 or 200; "No county found for zip code <zip>" exactly when no row has the zip; a 200 never carries an empty list |
| CountyData.LookupResolved | api/county_data.py:123-137 | after the zip resolves to its first row, the response is 200 exactly when a health row matches that row's `county`, `state_abbreviation` and the measure, and then carries those rows in table order, else 404 "No data found for …" |
| CountyData.HandleCountyData | api/county_data.py:91-137 | non-JSON gives 400 before anything else; the teapot gives 418 before field checks; a missing or empty field gives 400; a bad zip gives 400 before the measure check; an unlisted string measure gives 400 and only then; a number or boolean measure gives 400 "Invalid measure_name"; a list or dict measure gives 500 with the unhashable-type message; a passing request gets the lookup's response; the status is one of 200, 400, 404, 418, 500 |
| CountyData.RejectionIgnoresData | api/county_data.py:95-120 | a request that fails a check gets the same response whatever the tables hold, and a 400, 418 or 500 is returned exactly for such requests |
| CountyData.OkRecordsMatch | api/county_data.py:128-137 | a 200 response lists exactly the health rows matching the measure and the zip's first `zip_county` row |
| CountyData.ScenarioFound | test_api.py:16-43 | zip 84102 with "Adult obesity" returns that county's obesity record |
| CountyData.ScenarioUnknownZip | test_api.py:45-58 | zip 00000 gives 404 "No county found for zip code 00000" |
| CountyData.UnlistedMeasure | api/county_data.py:115-117 | a well-formed zip with any unlisted non-empty measure gives 400 "Invalid measure_name", whatever the tables hold |
| CountyData.ScenarioInvalidMeasure | test_api.py:60-73 | "Invalid Measure", and the listed label in the wrong case, give 400 "Invalid measure_name" |
| CountyData.ScenarioRejections | test_api.py:75-118 | a missing zip or measure gives 400; a non-JSON body gives 400; the teapot gives 418; a four-digit zip gives 400 "Invalid zip code format" |
| CsvToSqlite.NormalizeColumnName | csv_to_sqlite.py:18-30 | the result has no U+FEFF and no upper-case ASCII letter, and is shorter than the input by exactly the number of U+FEFF characters |
| CsvToSqlite.NormalizeCharwise | csv_to_sqlite.py:27-30 | without U+FEFF, normalising maps upper-case letters down and keeps every other character (digits, punctuation, spaces) in place |
| CsvToSqlite.NormalizeDropsEveryBom | csv_to_sqlite.py:28 | a U+FEFF anywhere in the name is removed, not only a leading one |
| CsvToSqlite.NormalizeIdempotent | csv_to_sqlite.py:28-30 | normalising twice equals normalising once |
| CsvToSqlite.NormalizeLowercase | csv_to_sqlite.py:28-30 | a name of lower-case letters is its own normal form |
| CsvToSqlite.NormalizeExampleCase | test_csv_to_sqlite.py:54 | "UPPER CASE" normalises to "upper case" |
| CsvToSqlite.NormalizeExamplePunctuation | test_csv_to_sqlite.py:56 | "special!@#chars" is unchanged |
| CsvToSqlite.Basename | csv_to_sqlite.py:41 | the result is a suffix of the path holding no `/` |
| CsvToSqlite.DropExtension | csv_to_sqlite.py:41 | the result is a prefix of the name |
| CsvToSqlite.TableName | csv_to_sqlite.py:41 | the table name is a prefix of the basename and holds no `/` |
| CsvToSqlite.BasenameAfterDir | csv_to_sqlite.py:41 | the basename of `dir/base` is `base` |
| CsvToSqlite.DropExtensionOf | csv_to_sqlite.py:41 | only the last extension is dropped: `stem.ext` becomes `stem` |
| CsvToSqlite.TableNameOfFile | csv_to_sqlite.py:41 | the table for `dir/stem.ext` is `stem` |
| CsvToSqlite.TableNameExample | test_csv_to_sqlite.py:65-72 | `<tmp>/test_zip.csv` loads into table `test_zip` |
| CsvToSqlite.TableKey | csv_to_sqlite.py:53-58 | the key a table is found under is the file's table name lower-cased character by character, so it has the name's length and no upper-case letter |
| CsvToSqlite.TableKeyOfLowerName | csv_to_sqlite.py:53-58 | a table name without upper-case letters is its own key |
| CsvToSqlite.TableKeyIgnoresCase | csv_to_sqlite.py:53-58 | table names that differ only in ASCII case share a key, hence a table |
| CsvToSqlite.TableKeyExample | csv_to_sqlite.py:41-58 | `zip.csv` and `Zip.csv` give the different names `zip` and `Zip` but load into one table |
| CsvToSqlite.TestZipKey | test_csv_to_sqlite.py:65-72 | the zip test file's table is found under `test_zip` |
| CsvToSqlite.PlaceholderCount | csv_to_sqlite.py:57 | the placeholder list is `?,?,…,?` with exactly one `?` per column |
| CsvToSqlite.Headers | csv_to_sqlite.py:47 | one column name per header token, in header order, each the token's normal form: free of U+FEFF and no longer than the token |
| CsvToSqlite.FirstDuplicate | csv_to_sqlite.py:50-54 | the first column name that repeats an earlier one, every name before it being new; none exactly when the names are distinct |
| CsvToSqlite.ExecuteManyError | csv_to_sqlite.py:66-72 | `executemany` succeeds exactly when the statement's value count equals the table's column count and every row binds that many values |
| CsvToSqlite.InsertAll | csv_to_sqlite.py:60-72 | inserting succeeds exactly when every data line has one field per placeholder, and the table, when there is data, has as many columns; then every line is appended once, in file order |
| CsvToSqlite.ImportCsv | csv_to_sqlite.py:32-76 | on success the file opened and had a non-empty header; a new table has distinct column names; exactly the file's table, found by its case-blind key, is added or extended; every other table is unchanged; the table holds the normalised header as columns (when new) followed by the data lines in file order |
| CsvToSqlite.ImportCsvSucceeds | csv_to_sqlite.py:43-76 | a file loads exactly when it opens, has a non-empty header, every later line matches the header's width, a new table's column names are distinct, and an existing table receiving data has as many columns as the header |
| CsvToSqlite.HeadersOfLowerWords | csv_to_sqlite.py:47 | a header whose tokens are lower-case words gives exactly those tokens as column names |
| CsvToSqlite.HeadersExample | test_csv_to_sqlite.py:69-74 | the test header `zip, county, state` gives the columns `zip, county, state` |
| CsvToSqlite.ZipHeader | test_csv_to_sqlite.py:69-74 | the zip test header has three distinct tokens and is its own list of column names |
| CsvToSqlite.ImportExample | test_csv_to_sqlite.py:62-83 | the zip test file, in any directory, creates `test_zip` with columns `zip, county, state` holding its two lines in order |
| CsvToSqlite.ImportNewTable | csv_to_sqlite.py:43-72 | a file whose header gives distinct column names and whose lines all have the header's width loads into an empty database as exactly one table holding those columns and lines |
| CsvToSqlite.InsertInBatches | csv_to_sqlite.py:60-72 | the loop gives `InsertAll`'s outcome; each batch holds 1 to 1000 rows, every batch but the last holds exactly 1000, and on success the batches concatenate to the data lines |
| CsvToSqlite.Flush | csv_to_sqlite.py:66-68 | one `executemany`: its error is the file's first error, otherwise the pending rows become one more executed batch |
| CsvToSqlite.CreateTableFromCsv | csv_to_sqlite.py:32-76 | the method's outcome equals `ImportCsv`, and on success its batches concatenate to the data lines |
| CsvToSqlite.FirstMissing | csv_to_sqlite.py:88-91 | the first path that does not exist, every earlier path existing |
| CsvToSqlite.FindMissing | csv_to_sqlite.py:87-91 | the existence loop stops at the first missing path |
| CsvToSqlite.ImportAll | csv_to_sqlite.py:97-103 | loading keeps every earlier table, and on success every listed file's key names a table |
| CsvToSqlite.ImportAllStopsAtFailure | csv_to_sqlite.py:74-76 | once a file fails, the run's outcome is that failure whatever files follow |
| CsvToSqlite.ImportFiles | csv_to_sqlite.py:97-103 | the import loop equals `ImportAll` |
| CsvToSqlite.Run | csv_to_sqlite.py:78-106 | fewer than two file arguments is a usage error; a missing path is reported, the first one, before any file is read; when every path exists the run ends in the import's failure or its commit; exit status 0 means every file has its table |
| OptimizeData.SkipBom | optimize_data.py:17-22 | the text read is the file, or the file minus one leading U+FEFF |
| OptimizeData.SkipBomOnce | optimize_data.py:19-22 | only one mark is skipped, and text without a leading mark is read from the start |
| OptimizeData.ProcessCsvsIgnoresBom | optimize_data.py:17-30 | a leading U+FEFF on the zip file does not change the result |
| OptimizeData.Trimmed | optimize_data.py:26-29 | `row[name].strip()` fails exactly when the column is missing or `None`, else gives the stripped field |
| OptimizeData.ZipEntry | optimize_data.py:26-30 | a zip row reads exactly when `zip`, `county` and `state_abbreviation` all read, and gives their trimmed values |
| OptimizeData.ZipToCounty | optimize_data.py:25-30 | the dictionary is built exactly when every row reads, and then every row's trimmed zip is a key; otherwise the first unreadable row's error is raised |
| OptimizeData.ZipToCountyLastWins | optimize_data.py:16-30 | every trimmed zip is a key and holds the trimmed county and state of the last row with that zip |
| OptimizeData.ReadKey | optimize_data.py:37 | a key reads exactly when `County`, `State` and `Measure_name` read, and is their trimmed values |
| OptimizeData.ReadColumns | optimize_data.py:40-50 | the trimmed values of the named columns in order, or the error of the first unreadable one |
| OptimizeData.ReadRecord | optimize_data.py:40-50 | a record reads exactly when its nine columns read, and each field is the trimmed value of its column |
| OptimizeData.FromFields | optimize_data.py:40-50 | the stored record has exactly the nine listed fields in order |
| OptimizeData.HealthEntry | optimize_data.py:36-50 | a health row reads exactly when its key and record read; key errors come first |
| OptimizeData.HealthData | optimize_data.py:36-50 | the grouping is built exactly when every row reads, and then every row's key is listed; otherwise the first unreadable row's error is raised |
| OptimizeData.HealthDataGroups | optimize_data.py:33-50 | every row lands in the group of its key; keys are listed once each; each group is exactly its rows' records in file order; the group sizes add up to the row count |
| OptimizeData.SerializeKeySplit | optimize_data.py:53-56 | splitting the pipe-joined `county`, `state`, `measure` text on a pipe gives the triple back when no part holds a pipe |
| OptimizeData.SerializeKeyInjective | optimize_data.py:53-56 | for pipe-free keys, equal text keys mean equal triples |
| OptimizeData.SerializeKeyCollision | optimize_data.py:53-56 | a pipe inside a county name makes two different keys share a text key |
| OptimizeData.Serialize | optimize_data.py:53-56 | every group's text key is present, and every text key holds the records of a group with that text key |
| OptimizeData.SerializeKeepsGroups | optimize_data.py:53-56 | with pipe-free keys each group is found, unchanged, under its text key |
| OptimizeData.ProcessCsvs | optimize_data.py:11-62 | the run succeeds exactly when every row of both files reads; an unreadable zip row ends the run with the first such row's error, before the health file is read; on success every zip row's trimmed zip is a key of the zip dictionary and every health row's text key is a key of the health dictionary |
| OptimizeData.ZipLookup | optimize_data.py:16-30 | every key of the written zip dictionary is the trimmed zip of a row, and holds the county and state of the last row with that zip |
| OptimizeData.SerializedRowKeys | optimize_data.py:53-56 | every row's text key is a key of the serialised health dictionary |
| OptimizeData.HealthLookup | optimize_data.py:33-62 | when no key holds a pipe, a county, state and measure is present in the written health dictionary exactly when some row has them, and the lookup gives that key's records in file order, none when it is absent |
| OptimizeData.SerializedLookup | optimize_data.py:33-56 | the same presence and lookup facts for the serialised grouping of one file's rows |
| OptimizeData.RecordsOfNone | optimize_data.py:36-50 | a key no row has collects no records |
| LoadData.LoadCsvToDict | api/load_data.py:10-17 | an empty file gives no rows; there are never more rows than data lines; without blank lines there is one row per data line, in file order, built from the header and that line |
| LoadData.ZipMappingEntry | api/load_data.py:29-34 | an entry reads exactly when `county`, `state_abbreviation`, `county_code` and `zip` exist; it is keyed by the raw zip and holds exactly the raw county, state and county code; `zip` is looked up last |
| LoadData.ZipMapping | api/load_data.py:28-34 | the dictionary is built exactly when every row has the four columns; otherwise the first row missing one gives the `KeyError` |
| LoadData.ZipMappingLastWins | api/load_data.py:28-34 | every raw zip is a key and holds the values of the last row with that zip |
| LoadData.KeyOf | api/load_data.py:39 | the key is the raw `(county, state, measure_name)` triple, which needs all three columns |
| LoadData.HealthPair | api/load_data.py:38-42 | a row is stored whole under its key |
| LoadData.HealthMapping | api/load_data.py:37-42 | the grouping is built exactly when every row has the three key columns; otherwise the first row missing one gives the `KeyError` |
| LoadData.HealthMappingGroups | api/load_data.py:37-42 | every row's key is listed once; each group is exactly the rows with that key, whole and in file order; the group sizes add up to the row count |
| TestDataset.TargetZipsWellFormed | create_test_dataset.py:10-21 | ten distinct five-digit strings |
| TestDataset.KeepZipRows | create_test_dataset.py:34-37 | the loop succeeds exactly when every row has `zip` and every written row has no overflow and has `county` and `state_abbreviation`; the written rows are exactly the target-zip rows in order |
| TestDataset.KeepZipRowsCounties | create_test_dataset.py:32-39 | the county set is exactly the (county, state_abbreviation) pairs of the written rows |
| TestDataset.SampleZipData | create_test_dataset.py:23-39 | an empty input fails at the header; the header written is the input's; the run succeeds exactly when every row passes the loop |
| TestDataset.SampleZipDataRows | create_test_dataset.py:32-39 | a row is written exactly when its raw zip is a target, unchanged and in input order, and the county set is exactly the written rows' counties |
| TestDataset.KeepHealthRows | create_test_dataset.py:49-51 | the loop succeeds exactly when every row has `county` and `state` and written rows have no overflow; the written rows are the rows whose pair is in the set, in order |
| TestDataset.SampleHealthData | create_test_dataset.py:41-51 | an empty input fails at the header; the header written is the input's; the rows written are the order-preserving selection of rows whose (county, state) is in the set |
| TestDataset.SampleIsSemiJoin | create_test_dataset.py:53-56 | a health row is written exactly when its (county, state) is that of some written zip row |
| Text.Strip | optimize_data.py:26-29 | the result has no leading or trailing Python whitespace and is no longer than the input |
| Text.StripPadding | optimize_data.py:26-29 | stripping removes exactly the surrounding whitespace: `strip(pre + x + post) == x` |
| Text.StripIdempotent | optimize_data.py:26-29 | stripping twice equals stripping once |
| Text.Lower | csv_to_sqlite.py:30 | lower-casing keeps the length, maps each character by ASCII lower-casing, and leaves no upper-case letter |
| Text.IsDigits | api/county_data.py:112 | the character-by-character digit check holds exactly for a non-empty string of ASCII digits |
| Text.SplitFirst | optimize_data.py:54 | splitting at the first separator peels off the text before it |
| Csv.MakeRow | api/load_data.py:14-16 | a `DictReader` row has one key per header name; with a distinct header each field is the line's value, or `None` when the line is short, and fields beyond the header go to the overflow |
| Csv.DictReader | api/load_data.py:13-16 | the first line is the header (`None` for an empty file); there are never more rows than data lines; without blank lines the rows are one per data line, in file order, each built from the header and that line |
| Csv.ReadRows | api/load_data.py:14-16 | no more rows than lines; without blank lines one row per line, in order |
| Csv.ReadRowsFrom | api/load_data.py:14-16 | every row is built from a non-blank line of the file |
| Csv.ReadRowsConcat | api/load_data.py:14-16 | reading two runs of lines in turn gives their rows in turn |
| Csv.ReadRowsSkipsBlank | api/load_data.py:14-16 | a blank line yields no row and leaves the others unchanged |
| Csv.DictReaderSkipsBlank | api/load_data.py:14-16 | a blank data line changes no row of the file |
| Csv.Get | api/load_data.py:30-33 | `row[name]` succeeds exactly when the column exists, giving its raw field, `None` included |
| Csv.GetString | optimize_data.py:26 | `row[name]` used as a string fails exactly when the column is missing or `None` |
| Seqs.Filter | create_test_dataset.py:49-51 | the kept elements all satisfy the test and come from the input, each as often as in the input |
| Seqs.FilterConcat | create_test_dataset.py:49-51 | filtering preserves relative order across a split of the input |
| Seqs.FilterMap | api/load_data.py:14-16 | no longer than the input; when every element is kept, the image of each element in place |
| Seqs.FilterMapFrom | api/load_data.py:14-16 | every output element is the image of a kept input element |
| Seqs.FilterMapConcat | api/load_data.py:14-16 | filter-then-map distributes over concatenation |
| Seqs.MapAll | optimize_data.py:25-30 | a row loop succeeds exactly when every row does, and otherwise stops with the first row's exception |
| Indexes.LastWins | optimize_data.py:25-30 | every key is present and holds the value of its last pair |
| Indexes.Group | optimize_data.py:38-40 | every pair's key is listed exactly once, and each key's list is that key's values in input order, never empty |
| Indexes.GroupSizes | api/load_data.py:37-42 | the group sizes add up to the number of pairs |

## Left out

- The Flask plumbing is not modelled: routing, `request.get_json()` parsing, `jsonify` and the server start. The content type is a boolean, and the body is a JSON object given as a map.
- A non-object JSON body is left out: `data.get` would raise and the handler would return 500.
- The generic 500 catch-all is modelled only for the one exception a JSON object body can raise: a list or dict `measure_name` hashed by the set-membership test.
- SQLite is replaced by in-memory sequences. A `SELECT` without `ORDER BY` is assumed to read rows in insertion order.
- `init_db` and the data module it reads are not part of this model. The two tables are a parameter of the handler.
- JSON numbers are integers. Floats are left out; only their truthiness matters here, and a zero float would read as falsy like `0`.
- File, gzip and JSON output is left out, along with `sys.exit`, printing and `os.makedirs`.
- The CSV tokenizer is a parameter of `OptimizeData.ProcessCsvs`. Elsewhere files arrive as already tokenised lines, with a blank line as the empty record.
- Text.Lower: lower-cases ASCII letters only, because Python's Unicode case mapping is not modelled.
- Text.IsDigits: accepts ASCII digits only, because Python's `str.isdigit` also accepts other Unicode digits.
- Text.Strip: uses the fixed whitespace set of Python's `str.isspace`, with no other Unicode handling.
- CsvToSqlite.ImportCsv: assumes the table name and every normalised header token are plain SQL identifiers, because the script splices them unquoted into its SQL text and SQLite's parser is not modelled. Other names behave in several ways. A name such as `2020` or `select` is a syntax error. A token with a space, such as `first name`, declares a column `first` of type `name TEXT` and loads. Only the empty header is modelled, as `EmptyColumnList`.
- CsvToSqlite.Run: reports the outcome but not the database file after a failure. Python's `sqlite3` opens a transaction at the run's first INSERT. A `CREATE TABLE` issued before that point is already permanent. Everything after it is rolled back when the connection closes without a commit, later `CREATE TABLE`s included.
- The `json.dump` of `health_mapping` at api/load_data.py:51-52 would raise, because its keys are tuples. The model builds the mapping and stops there.
- Indexes.Group: does not state the order of the key list. Only which keys it holds is stated, each once. The order matters only for which group a colliding text key keeps in `OptimizeData.Serialize`, and that case is stated as "some group with that text key".
- The CSV writer's formatting is left out: `None` would be written as an empty field, and quoting is not modelled. The written rows are modelled as the rows handed to `writerow`.
- `data/generate_test_data.py` is a fixture writer with a constant loop, and is not part of this model.
