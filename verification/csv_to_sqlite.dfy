/** The command-line CSV-to-SQLite converter: one table per CSV file, named
    after the file, with one TEXT column per normalised header token, and the
    data lines inserted in batches. */
module CsvToSqlite {
  import opened Wrappers
  import Text
  import Seqs
  import Csv

  predicate NotBom(c: char) {
    c != Text.Bom
  }

  /** `normalize_column_name`: drop every U+FEFF, then lower-case. */
  function NormalizeColumnName(name: string): (r: string)
    ensures Text.Bom !in r
    ensures forall i :: 0 <= i < |r| ==> !Text.IsUpper(r[i])
    ensures |r| == |name| - multiset(name)[Text.Bom]
  {
    KeptFacts(name);
    Text.Lower(Seqs.Filter(NotBom, name))
  }

  lemma KeptFacts(name: string)
    ensures forall i :: 0 <= i < |Text.Lower(Seqs.Filter(NotBom, name))| ==>
      Text.Lower(Seqs.Filter(NotBom, name))[i] != Text.Bom
    ensures |Seqs.Filter(NotBom, name)| == |name| - multiset(name)[Text.Bom]
  {
    var kept := Seqs.Filter(NotBom, name);
    KeptCount(name);
    assert forall i :: 0 <= i < |kept| ==> NotBom(kept[i]);
  }

  /** Dropping the U+FEFF characters shortens the name by their count. */
  lemma {:induction false} KeptCount(name: string)
    ensures |Seqs.Filter(NotBom, name)| == |name| - multiset(name)[Text.Bom]
  {
    if |name| > 0 {
      KeptCount(name[1..]);
      assert name == [name[0]] + name[1..];
      assert multiset(name) == multiset{name[0]} + multiset(name[1..]);
    }
  }

  /** Without a U+FEFF, normalising is ASCII lower-casing character by
      character: upper-case letters move down, everything else (digits,
      punctuation, spaces) is kept as is. */
  lemma NormalizeCharwise(name: string)
    requires Text.Bom !in name
    ensures |NormalizeColumnName(name)| == |name|
    ensures forall i :: 0 <= i < |name| ==>
      NormalizeColumnName(name)[i] == if Text.IsUpper(name[i]) then (name[i] as int + 32) as char else name[i]
  {
    Seqs.FilterAll(NotBom, name);
  }

  /** Every U+FEFF is removed, wherever it stands, not just a leading one. */
  lemma NormalizeDropsEveryBom(a: string, b: string)
    ensures NormalizeColumnName(a + [Text.Bom] + b) == NormalizeColumnName(a + b)
  {
    FilterDropsBom(a, b);
  }

  lemma FilterDropsBom(a: string, b: string)
    ensures Seqs.Filter(NotBom, a + [Text.Bom] + b) == Seqs.Filter(NotBom, a + b)
  {
    var bom: string := [Text.Bom];
    assert bom[1..] == [];
    assert Seqs.Filter(NotBom, bom) == [];
    Seqs.FilterConcat(NotBom, a, bom);
    Seqs.FilterConcat(NotBom, a + bom, b);
    Seqs.FilterConcat(NotBom, a, b);
  }

  /** Normalising twice is normalising once. */
  lemma NormalizeIdempotent(name: string)
    ensures NormalizeColumnName(NormalizeColumnName(name)) == NormalizeColumnName(name)
  {
    var r := NormalizeColumnName(name);
    NormalizeCharwise(r);
  }

  lemma NormalizeTo(name: string, expected: string)
    requires Text.Bom !in name && |expected| == |name|
    requires forall i :: 0 <= i < |name| ==> expected[i] == Text.LowerChar(name[i])
    ensures NormalizeColumnName(name) == expected
  {
    NormalizeCharwise(name);
  }

  /** Header names from the converter's test suite. */
  lemma NormalizeExampleCase()
    ensures NormalizeColumnName("UPPER CASE") == "upper case"
  {
    assert Text.Bom !in "UPPER CASE";
    NormalizeTo("UPPER CASE", "upper case");
  }

  lemma NormalizeExamplePunctuation()
    ensures NormalizeColumnName("special!@#chars") == "special!@#chars"
  {
    assert Text.Bom !in "special!@#chars";
    NormalizeTo("special!@#chars", "special!@#chars");
  }

  /** `os.path.basename`: everything after the last `/`. */
  function Basename(path: string): (r: string)
    ensures '/' !in r
    ensures |r| <= |path| && r == path[|path| - |r|..]
  {
    path[Text.LastIndex(path, '/') + 1..]
  }

  predicate AllDots(s: string) {
    forall k :: 0 <= k < |s| ==> s[k] == '.'
  }

  /** `os.path.splitext(name)[0]` for a name without `/`: the text before the
      last dot, unless only dots precede it (so `.bashrc` keeps its name). */
  function DropExtension(name: string): (r: string)
    ensures |r| <= |name| && r == name[..|r|]
  {
    var d := Text.LastIndex(name, '.');
    if d >= 0 && !AllDots(name[..d]) then name[..d] else name
  }

  /** The table a CSV file is loaded into: the file's basename without its
      final extension. */
  function TableName(path: string): (r: string)
    ensures '/' !in r
    ensures |r| <= |Basename(path)| && r == Basename(path)[..|r|]
  {
    DropExtension(Basename(path))
  }

  lemma BasenameAfterDir(dir: string, base: string)
    requires |dir| == 0 || dir[|dir| - 1] == '/'
    requires '/' !in base
    ensures Basename(dir + base) == base
  {
    var path := dir + base;
    if |dir| > 0 {
      assert path[|dir| - 1] == '/';
    }
    assert forall j :: |dir| <= j < |path| ==> path[j] == base[j - |dir|];
    assert Text.LastIndex(path, '/') == |dir| - 1;
  }

  lemma DropExtensionOf(stem: string, ext: string)
    requires '.' !in ext && !AllDots(stem)
    ensures DropExtension(stem + "." + ext) == stem
  {
    var name := stem + "." + ext;
    assert name[|stem|] == '.';
    assert forall j :: |stem| < j < |name| ==> name[j] == ext[j - |stem| - 1];
    assert Text.LastIndex(name, '.') == |stem|;
    assert name[..|stem|] == stem;
  }

  /** For `dir/stem.ext` (or `stem.ext`), the table is `stem`: the directory
      and only the last extension are dropped. */
  lemma TableNameOfFile(dir: string, stem: string, ext: string)
    requires |dir| == 0 || dir[|dir| - 1] == '/'
    requires '/' !in stem && '/' !in ext && '.' !in ext && !AllDots(stem)
    ensures TableName(dir + stem + "." + ext) == stem
  {
    assert dir + stem + "." + ext == dir + (stem + "." + ext);
    BasenameAfterDir(dir, stem + "." + ext);
    DropExtensionOf(stem, ext);
  }

  /** The converter's test files: `<tmp>/test_zip.csv` loads into `test_zip`. */
  lemma TableNameExample(tmp: string)
    requires |tmp| > 0 && tmp[|tmp| - 1] == '/'
    ensures TableName(tmp + "test_zip.csv") == "test_zip"
  {
    assert !AllDots("test_zip") by { assert "test_zip"[0] == 't'; }
    assert '/' !in "test_zip" && '/' !in "csv" && '.' !in "csv";
    assert tmp + "test_zip" + "." + "csv" == tmp + "test_zip.csv";
    TableNameOfFile(tmp, "test_zip", "csv");
  }

  /** SQLite compares table names ignoring ASCII case, so files whose table
      names differ only in case load into one table: the database is keyed
      by the folded name. */
  function TableKey(path: string): (r: string)
    ensures |r| == |TableName(path)|
    ensures forall i :: 0 <= i < |r| ==> !Text.IsUpper(r[i])
    ensures forall i :: 0 <= i < |r| ==> r[i] == Text.LowerChar(TableName(path)[i])
  {
    Text.Lower(TableName(path))
  }

  /** A table name without upper-case letters is its own key. */
  lemma TableKeyOfLowerName(path: string)
    requires forall i :: 0 <= i < |TableName(path)| ==> !Text.IsUpper(TableName(path)[i])
    ensures TableKey(path) == TableName(path)
  {
  }

  /** `zip.csv` and `Zip.csv` name different tables but load into one. */
  lemma TableKeyExample(dir: string)
    requires |dir| > 0 && dir[|dir| - 1] == '/'
    ensures TableName(dir + "zip.csv") == "zip" && TableName(dir + "Zip.csv") == "Zip"
    ensures TableKey(dir + "zip.csv") == TableKey(dir + "Zip.csv")
  {
    var lower: string := "zip";
    var upper: string := "Zip";
    assert lower[0] == 'z' && upper[0] == 'Z' && lower[1..] == upper[1..];
    assert !AllDots(lower) && !AllDots(upper);
    assert '/' !in lower && '/' !in upper && '/' !in "csv" && '.' !in "csv";
    assert dir + lower + "." + "csv" == dir + "zip.csv";
    assert dir + upper + "." + "csv" == dir + "Zip.csv";
    TableNameOfFile(dir, lower, "csv");
    TableNameOfFile(dir, upper, "csv");
    TableKeyIgnoresCase(dir + "zip.csv", dir + "Zip.csv");
  }

  /** Table names that differ only in ASCII case share a key. */
  lemma TableKeyIgnoresCase(p1: string, p2: string)
    requires |TableName(p1)| == |TableName(p2)|
    requires forall i :: 0 <= i < |TableName(p1)| ==>
      Text.LowerChar(TableName(p1)[i]) == Text.LowerChar(TableName(p2)[i])
    ensures TableKey(p1) == TableKey(p2)
  {
  }

  /** The value list of the INSERT statement: one `?` per column, joined
      by commas. */
  function Placeholders(n: nat): string {
    Text.Join(",", seq(n, _ => "?"))
  }

  /** The placeholder list holds exactly one `?` per column, separated by
      commas: `?,?,...,?`. */
  lemma {:induction false} PlaceholderCount(n: nat)
    ensures multiset(Placeholders(n))['?'] == n
    ensures |Placeholders(n)| == if n == 0 then 0 else 2 * n - 1
    ensures forall i :: 0 <= i < |Placeholders(n)| ==>
      Placeholders(n)[i] == if i % 2 == 0 then '?' else ','
  {
    if n > 1 {
      PlaceholderCount(n - 1);
      assert seq(n, _ => "?")[1..] == seq(n - 1, _ => "?");
      assert Placeholders(n) == "?" + "," + Placeholders(n - 1);
      assert multiset(Placeholders(n)) == multiset{'?', ','} + multiset(Placeholders(n - 1));
    } else if n == 1 {
      assert Placeholders(1) == "?";
    }
  }

  /** A table: its column names and its rows in insertion order. */
  datatype Table = Table(columns: seq<string>, rows: seq<Csv.Record>)

  /** The tables of the SQLite database, by name. */
  type Database = map<string, Table>

  /** Rows are sent to `executemany` in batches of this size. */
  const BatchSize: nat := 1000

  /** Why processing one CSV file fails; each ends the run with exit status 1. */
  datatype ImportError =
    | OpenFailed                                        // `open` raised
    | NoHeader                                          // `next(csv_reader)` raised StopIteration
    | EmptyColumnList                                   // `CREATE TABLE t ()` is a syntax error
    | DuplicateColumn(name: string)                     // a new table would get two columns of this name
    | ColumnCountMismatch(columns: nat, values: nat)    // the table has other columns than the header
    | BindingCountMismatch(expected: nat, supplied: nat) // a line's field count differs from the header's

  /** The column names of a header line: one per token, in header order,
      each free of U+FEFF and of upper-case letters. */
  function Headers(header: Csv.Record): (r: seq<string>)
    ensures |r| == |header|
    ensures forall i :: 0 <= i < |r| ==> r[i] == NormalizeColumnName(header[i])
    ensures forall i :: 0 <= i < |r| ==> Text.Bom !in r[i] && |r[i]| <= |header[i]|
  {
    seq(|header|, i requires 0 <= i < |header| => NormalizeColumnName(header[i]))
  }

  /** The first column that repeats an earlier one, as SQLite reports it
      while building a new table, or -1 when the names are distinct. */
  function FirstDuplicate(names: seq<string>): (r: int)
    ensures -1 <= r < |names|
    ensures r < 0 <==> Csv.Distinct(names)
    ensures r >= 0 ==> (names[r] in names[..r]
      && forall j :: 0 <= j < r ==> names[j] !in names[..j])
  {
    if |names| == 0 then -1
    else
      var k := FirstDuplicate(names[..|names| - 1]);
      assert forall j :: 0 <= j < |names| - 1 ==> names[..|names| - 1][..j] == names[..j];
      if k >= 0 then k
      else if names[|names| - 1] in names[..|names| - 1] then |names| - 1
      else -1
  }

  /** The index of the first row whose field count is not `n`, or -1. */
  function FirstBadRow(rows: seq<Csv.Record>, n: nat): (r: int)
    ensures -1 <= r < |rows|
    ensures r >= 0 ==> |rows[r]| != n
    ensures forall j :: 0 <= j < |rows| && (r < 0 || j < r) ==> |rows[j]| == n
  {
    if |rows| == 0 then -1
    else if |rows[0]| != n then 0
    else
      var k := FirstBadRow(rows[1..], n);
      if k < 0 then -1 else k + 1
  }

  /** The error `executemany` raises for a batch, if any: the statement is
      prepared once (its value count must match the table), then each row is
      bound in order (its field count must match the placeholders). */
  function ExecuteManyError(columns: nat, placeholders: nat, batch: seq<Csv.Record>): (e: Option<ImportError>)
    ensures e.None? <==> columns == placeholders && forall j :: 0 <= j < |batch| ==> |batch[j]| == placeholders
  {
    if columns != placeholders then Some(ColumnCountMismatch(columns, placeholders))
    else
      var k := FirstBadRow(batch, placeholders);
      if k >= 0 then Some(BindingCountMismatch(placeholders, |batch[k]|)) else None
  }

  /** The effect of inserting the data lines `data` into `table` with an
      INSERT of `n` placeholders: every line appended in order, or the first
      error `executemany` raises. */
  function InsertAll(table: Table, n: nat, data: seq<Csv.Record>): (r: Result<Table, ImportError>)
    ensures r.Success? <==>
      (|data| > 0 ==> |table.columns| == n) && forall j :: 0 <= j < |data| ==> |data[j]| == n
    ensures r.Success? ==> r.value == Table(table.columns, table.rows + data)
  {
    if |data| > 0 && |table.columns| != n then Failure(ColumnCountMismatch(|table.columns|, n))
    else
      var k := FirstBadRow(data, n);
      if k >= 0 then Failure(BindingCountMismatch(n, |data[k]|))
      else Success(Table(table.columns, table.rows + data))
  }

  /** What `create_table_from_csv` does to the database with the parsed lines
      of the file at `path` (`None` when the file cannot be opened): the table
      named after the file is created if missing, with the normalised header
      as its columns, and receives every later line, in file order. A new
      table cannot have two columns of one name. */
  function ImportCsv(db: Database, path: string, file: Option<seq<Csv.Record>>): (r: Result<Database, ImportError>)
    ensures r.Success? ==> file.Some? && |file.value| > 0 && |file.value[0]| > 0
    ensures r.Success? && TableKey(path) !in db ==> Csv.Distinct(Headers(file.value[0]))
    ensures r.Success? ==> r.value.Keys == db.Keys + {TableKey(path)}
    ensures r.Success? ==> forall t :: t in db && t != TableKey(path) ==> r.value[t] == db[t]
    ensures r.Success? ==> (
      r.value[TableKey(path)] ==
        if TableKey(path) in db
        then Table(db[TableKey(path)].columns, db[TableKey(path)].rows + file.value[1..])
        else Table(Headers(file.value[0]), file.value[1..]))
  {
    var key := TableKey(path);
    if file.None? then Failure(OpenFailed)
    else if |file.value| == 0 then Failure(NoHeader)
    else
      var headers := Headers(file.value[0]);
      if |headers| == 0 then Failure(EmptyColumnList)
      else if key !in db && FirstDuplicate(headers) >= 0 then
        Failure(DuplicateColumn(headers[FirstDuplicate(headers)]))
      else
        var table := if key in db then db[key] else Table(headers, []);
        match InsertAll(table, |headers|, file.value[1..])
        case Failure(e) => Failure(e)
        case Success(t) => Success(db[key := t])
  }

  /** A file loads exactly when it can be opened, has a non-empty header,
      every later line has as many fields as the header, a new table's
      column names are distinct, and, when it has data lines and its table
      already exists, that table has as many columns as the header. */
  lemma ImportCsvSucceeds(db: Database, path: string, file: Option<seq<Csv.Record>>)
    ensures ImportCsv(db, path, file).Success? <==>
      && file.Some? && |file.value| > 0 && |file.value[0]| > 0
      && (forall j :: 1 <= j < |file.value| ==> |file.value[j]| == |file.value[0]|)
      && (TableKey(path) !in db ==> Csv.Distinct(Headers(file.value[0])))
      && (|file.value| > 1 && TableKey(path) in db ==>
            |db[TableKey(path)].columns| == |file.value[0]|)
  {
    if file.Some? && |file.value| > 0 {
      var data := file.value[1..];
      assert forall j :: 1 <= j < |file.value| ==> file.value[j] == data[j - 1];
    }
  }

  /** The batch loop of `create_table_from_csv`: lines go into a pending
      buffer, which is handed to `executemany` whenever it reaches
      `BatchSize` rows, and once more at the end if non-empty. `batches`
      lists the batches executed. The outcome is `InsertAll`'s; on success
      every line was inserted once, in order, in full batches of `BatchSize`
      followed by at most one shorter batch. */
  method InsertInBatches(table: Table, n: nat, data: seq<Csv.Record>)
    returns (res: Result<Table, ImportError>, batches: seq<seq<Csv.Record>>)
    ensures res == InsertAll(table, n, data)
    ensures forall b :: b in batches ==> 0 < |b| <= BatchSize
    ensures forall k :: 0 <= k < |batches| - 1 ==> |batches[k]| == BatchSize
    ensures res.Success? ==> Seqs.Flatten(batches) == data
  {
    batches := [];
    var pending: seq<Csv.Record> := [];
    var i := 0;
    while i < |data|
      invariant 0 <= i <= |data|
      invariant Seqs.Flatten(batches) + pending == data[..i]
      invariant |pending| < BatchSize
      invariant forall k :: 0 <= k < |batches| ==> |batches[k]| == BatchSize
      invariant Executed(table, n, data, batches)
    {
      pending := pending + [data[i]];
      i := i + 1;
      if |pending| >= BatchSize {
        var err;
        err, batches := Flush(table, n, data, batches, pending, i);
        if err.Some? {
          return Failure(err.value), batches;
        }
        pending := [];
      }
    }
    assert data[..i] == data;
    if |pending| > 0 {
      var err;
      err, batches := Flush(table, n, data, batches, pending, i);
      if err.Some? {
        return Failure(err.value), batches;
      }
    }
    AllExecuted(table, n, data, batches);
    res := Success(Table(table.columns, table.rows + data));
  }

  /** One `executemany` of the pending rows: the first error it raises is
      the whole insertion's first error; otherwise the rows join the
      executed batches. */
  method Flush(table: Table, n: nat, data: seq<Csv.Record>, batches: seq<seq<Csv.Record>>,
               pending: seq<Csv.Record>, i: int)
    returns (err: Option<ImportError>, batches': seq<seq<Csv.Record>>)
    requires 0 <= i <= |data| && Seqs.Flatten(batches) + pending == data[..i]
    requires |pending| > 0
    requires Executed(table, n, data, batches)
    ensures err.Some? ==> Failure(err.value) == InsertAll(table, n, data) && batches' == batches
    ensures err.None? ==> batches' == batches + [pending]
    ensures err.None? ==> Seqs.Flatten(batches') == data[..i] && Executed(table, n, data, batches')
  {
    err := ExecuteManyError(|table.columns|, n, pending);
    if err.Some? {
      FirstFailureIsFirstBadRow(data, pending, Seqs.Flatten(batches), |table.columns|, n, i);
      return err, batches;
    }
    FlushStep(table, n, data, batches, pending, i);
    batches' := batches + [pending];
  }

  /** Every batch executed so far went through: the statement matched the
      table and every row bound. */
  ghost predicate Executed(table: Table, n: nat, data: seq<Csv.Record>, batches: seq<seq<Csv.Record>>) {
    && (|batches| > 0 ==> |table.columns| == n)
    && |Seqs.Flatten(batches)| <= |data|
    && forall j :: 0 <= j < |Seqs.Flatten(batches)| ==> |data[j]| == n
  }

  lemma FlushStep(table: Table, n: nat, data: seq<Csv.Record>, batches: seq<seq<Csv.Record>>,
                  pending: seq<Csv.Record>, i: int)
    requires 0 <= i <= |data| && Seqs.Flatten(batches) + pending == data[..i]
    requires |pending| > 0
    requires Executed(table, n, data, batches)
    requires ExecuteManyError(|table.columns|, n, pending).None?
    ensures Seqs.Flatten(batches + [pending]) == Seqs.Flatten(batches) + pending
    ensures Executed(table, n, data, batches + [pending])
  {
    Seqs.FlattenSnoc(batches, pending);
    var done := Seqs.Flatten(batches);
    forall j | 0 <= j < |done| + |pending|
      ensures |data[j]| == n
    {
      if j >= |done| {
        assert data[j] == (done + pending)[j] == pending[j - |done|];
      }
    }
  }

  lemma AllExecuted(table: Table, n: nat, data: seq<Csv.Record>, batches: seq<seq<Csv.Record>>)
    requires Seqs.Flatten(batches) == data
    requires Executed(table, n, data, batches)
    ensures InsertAll(table, n, data) == Success(Table(table.columns, table.rows + data))
  {
  }

  /** `create_table_from_csv` on the database `db`. */
  method CreateTableFromCsv(db: Database, path: string, file: Option<seq<Csv.Record>>)
    returns (res: Result<Database, ImportError>, batches: seq<seq<Csv.Record>>)
    ensures res == ImportCsv(db, path, file)
    ensures forall b :: b in batches ==> 0 < |b| <= BatchSize
    ensures res.Success? ==> Seqs.Flatten(batches) == file.value[1..]
  {
    batches := [];
    var key := TableKey(path);
    if file.None? {
      return Failure(OpenFailed), batches;
    }
    var records := file.value;
    if |records| == 0 {
      return Failure(NoHeader), batches;
    }
    var headers := Headers(records[0]);
    if |headers| == 0 {
      return Failure(EmptyColumnList), batches;
    }
    if key !in db {
      var dup := FirstDuplicate(headers);
      if dup >= 0 {
        return Failure(DuplicateColumn(headers[dup])), batches;
      }
    }
    var table := if key in db then db[key] else Table(headers, []);
    var inserted;
    inserted, batches := InsertInBatches(table, |headers|, records[1..]);
    match inserted {
      case Failure(e) => res := Failure(e);
      case Success(t) => res := Success(db[key := t]);
    }
  }

  /** The converter's zip test file: a fresh table `test_zip` with columns
      `zip`, `county`, `state` holding both data lines in file order. */
  lemma ImportExample(tmp: string, header: Csv.Record, data: seq<Csv.Record>)
    requires |tmp| > 0 && tmp[|tmp| - 1] == '/'
    requires header == ["zip", "county", "state"]
    requires data == [["12345", "Test County", "NY"], ["67890", "Another County", "CA"]]
    ensures ImportCsv(map[], tmp + "test_zip.csv", Some([header] + data))
      == Success(map["test_zip" := Table(header, data)])
  {
    var path := tmp + "test_zip.csv";
    TestZipKey(tmp, path);
    ZipHeader(header);
    assert |data[0]| == |header| && |data[1]| == |header|;
    ImportNewTable(path, "test_zip", header, header, data);
  }

  lemma TestZipKey(tmp: string, path: string)
    requires |tmp| > 0 && tmp[|tmp| - 1] == '/'
    requires path == tmp + "test_zip.csv"
    ensures TableKey(path) == "test_zip"
  {
    TableNameExample(tmp);
    TableKeyOfLowerName(path);
  }

  lemma ZipHeader(header: Csv.Record)
    requires header == ["zip", "county", "state"]
    ensures |header| == 3 && Headers(header) == header && Csv.Distinct(header)
  {
    HeadersExample();
    DistinctThree(header[0], header[1], header[2]);
    assert header == [header[0], header[1], header[2]];
  }

  /** A file with a non-empty header of distinct column names and lines of
      the header's width loads into an empty database as one table. */
  lemma ImportNewTable(path: string, key: string, header: Csv.Record, columns: seq<string>, data: seq<Csv.Record>)
    requires TableKey(path) == key
    requires |header| > 0 && Headers(header) == columns && Csv.Distinct(columns)
    requires forall j :: 0 <= j < |data| ==> |data[j]| == |header|
    ensures ImportCsv(map[], path, Some([header] + data))
      == Success(map[key := Table(columns, data)])
  {
    var file := [header] + data;
    assert file[0] == header && file[1..] == data;
    assert forall j :: 1 <= j < |file| ==> file[j] == data[j - 1];
    ImportCsvSucceeds(map[], path, Some(file));
    var r := ImportCsv(map[], path, Some(file)).value;
    assert r.Keys == {key};
  }

  lemma DistinctThree(a: string, b: string, c: string)
    requires a != b && a != c && b != c
    ensures Csv.Distinct([a, b, c])
  {
  }

  lemma HeadersExample()
    ensures Headers(["zip", "county", "state"]) == ["zip", "county", "state"]
  {
    var h: Csv.Record := ["zip", "county", "state"];
    assert LowerWord(h[0]) && LowerWord(h[1]) && LowerWord(h[2]);
    HeadersOfLowerWords(h);
  }

  /** A header of lower-case words is its own list of column names. */
  lemma HeadersOfLowerWords(h: Csv.Record)
    requires forall i :: 0 <= i < |h| ==> LowerWord(h[i])
    ensures Headers(h) == h
  {
    forall i | 0 <= i < |h|
      ensures Headers(h)[i] == h[i]
    {
      NormalizeLowercase(h[i]);
    }
  }

  /** `s` is made of lower-case ASCII letters only. */
  predicate LowerWord(s: string) {
    |s| == 0 || ('a' <= s[0] <= 'z' && LowerWord(s[1..]))
  }

  lemma {:induction false} LowerWordChars(s: string)
    requires LowerWord(s)
    ensures forall i :: 0 <= i < |s| ==> 'a' <= s[i] <= 'z'
  {
    if |s| > 0 {
      LowerWordChars(s[1..]);
      assert forall i :: 1 <= i < |s| ==> s[i] == s[1..][i - 1];
    }
  }

  /** A name of lower-case ASCII letters is its own normal form. */
  lemma NormalizeLowercase(name: string)
    requires LowerWord(name)
    ensures NormalizeColumnName(name) == name
  {
    LowerWordChars(name);
    assert Text.Bom !in name;
    NormalizeTo(name, name);
  }

  /** When every row flushed so far was well-formed, the first error of the
      batch now executed is the error of the whole file. */
  lemma FirstFailureIsFirstBadRow(data: seq<Csv.Record>, pending: seq<Csv.Record>, done: seq<Csv.Record>,
                                  columns: nat, n: nat, i: int)
    requires 0 <= i <= |data| && done + pending == data[..i] && |pending| > 0
    requires |done| > 0 ==> columns == n
    requires forall j :: 0 <= j < |done| ==> |data[j]| == n
    requires ExecuteManyError(columns, n, pending).Some?
    ensures columns == n ==> FirstBadRow(data, n) >= 0
    ensures ExecuteManyError(columns, n, pending).value ==
      if columns != n then ColumnCountMismatch(columns, n)
      else BindingCountMismatch(n, |data[FirstBadRow(data, n)]|)
  {
    if columns == n {
      var k := FirstBadRow(pending, n);
      assert pending[k] == data[|done| + k];
      forall j | 0 <= j < |done| + k
        ensures |data[j]| == n
      {
        if j >= |done| {
          assert data[j] == pending[j - |done|];
        }
      }
      assert FirstBadRow(data, n) == |done| + k;
    }
  }

  /** How a run of the converter ends. */
  datatype Outcome =
    | UsageError                                     // fewer than two arguments
    | CsvNotFound(path: string)                      // a listed CSV path does not exist
    | ImportFailed(path: string, error: ImportError) // processing that file raised
    | Committed(db: Database)                        // every file loaded and committed

  function ExitStatus(o: Outcome): int {
    if o.Committed? then 0 else 1
  }

  /** The files present on disk, by path: their parsed lines, or `None` when
      one exists but cannot be read. */
  type Files = map<string, Option<seq<Csv.Record>>>

  /** The index of the first path that does not exist, or -1. */
  function FirstMissing(paths: seq<string>, files: Files): (r: int)
    ensures -1 <= r < |paths|
    ensures r >= 0 ==> paths[r] !in files
    ensures forall j :: 0 <= j < |paths| && (r < 0 || j < r) ==> paths[j] in files
  {
    if |paths| == 0 then -1
    else if paths[0] !in files then 0
    else
      var k := FirstMissing(paths[1..], files);
      if k < 0 then -1 else k + 1
  }

  /** Loading the files one after the other into one database; the first
      failure ends the run. */
  function ImportAll(db: Database, paths: seq<string>, files: Files): (r: Result<Database, (string, ImportError)>)
    requires forall j :: 0 <= j < |paths| ==> paths[j] in files
    ensures r.Success? ==> db.Keys <= r.value.Keys
    ensures r.Success? ==> forall j :: 0 <= j < |paths| ==> TableKey(paths[j]) in r.value
  {
    if |paths| == 0 then Success(db)
    else
      var last := paths[|paths| - 1];
      match ImportAll(db, paths[..|paths| - 1], files)
      case Failure(e) => Failure(e)
      case Success(d) =>
        match ImportCsv(d, last, files[last])
        case Failure(e) => Failure((last, e))
        case Success(d') =>
          assert forall j :: 0 <= j < |paths| - 1 ==> paths[j] == paths[..|paths| - 1][j];
          Success(d')
  }

  /** Once a prefix of the files fails, the run fails with that error. */
  lemma {:induction false} ImportAllStopsAtFailure(db: Database, paths: seq<string>, files: Files, k: nat)
    requires k <= |paths| && forall j :: 0 <= j < |paths| ==> paths[j] in files
    requires ImportAll(db, paths[..k], files).Failure?
    ensures ImportAll(db, paths, files) == ImportAll(db, paths[..k], files)
  {
    if k < |paths| {
      var prefix := paths[..|paths| - 1];
      assert prefix[..k] == paths[..k];
      ImportAllStopsAtFailure(db, prefix, files, k);
    } else {
      assert paths[..k] == paths;
    }
  }

  /** The existence check over the CSV paths, in argument order. */
  method FindMissing(paths: seq<string>, files: Files) returns (r: int)
    ensures r == FirstMissing(paths, files)
  {
    var i := 0;
    while i < |paths|
      invariant 0 <= i <= |paths|
      invariant forall j :: 0 <= j < i ==> paths[j] in files
    {
      if paths[i] !in files {
        assert FirstMissing(paths, files) == i by {
          FirstMissingAt(paths, files, i);
        }
        return i;
      }
      i := i + 1;
    }
    FirstMissingNone(paths, files);
    return -1;
  }

  lemma FirstMissingAt(paths: seq<string>, files: Files, i: int)
    requires 0 <= i < |paths| && paths[i] !in files
    requires forall j :: 0 <= j < i ==> paths[j] in files
    ensures FirstMissing(paths, files) == i
  {
  }

  lemma FirstMissingNone(paths: seq<string>, files: Files)
    requires forall j :: 0 <= j < |paths| ==> paths[j] in files
    ensures FirstMissing(paths, files) == -1
  {
  }

  /** The import loop: each file in turn, stopping at the first failure. */
  method ImportFiles(db: Database, paths: seq<string>, files: Files) returns (res: Result<Database, (string, ImportError)>)
    requires forall j :: 0 <= j < |paths| ==> paths[j] in files
    ensures res == ImportAll(db, paths, files)
  {
    var current := db;
    var i := 0;
    while i < |paths|
      invariant 0 <= i <= |paths|
      invariant ImportAll(db, paths[..i], files) == Success(current)
    {
      assert paths[..i + 1][..i] == paths[..i];
      var step, _ := CreateTableFromCsv(current, paths[i], files[paths[i]]);
      if step.Failure? {
        assert ImportAll(db, paths[..i + 1], files) == Failure((paths[i], step.error));
        ImportAllStopsAtFailure(db, paths, files, i + 1);
        return Failure((paths[i], step.error));
      }
      current := step.value;
      i := i + 1;
    }
    assert paths[..i] == paths;
    return Success(current);
  }

  /** `main`: the argument checks, then every file in turn, then commit. */
  method Run(argv: seq<string>, files: Files, db: Database) returns (o: Outcome)
    ensures |argv| < 3 <==> o == UsageError
    ensures |argv| >= 3 && FirstMissing(argv[2..], files) >= 0 ==>
      o == CsvNotFound(argv[2 + FirstMissing(argv[2..], files)])
    ensures o.ImportFailed? || o.Committed? ==> |argv| >= 3 && FirstMissing(argv[2..], files) < 0
    ensures o.Committed? ==> ImportAll(db, argv[2..], files) == Success(o.db)
    ensures o.ImportFailed? ==> ImportAll(db, argv[2..], files) == Failure((o.path, o.error))
    ensures |argv| >= 3 && FirstMissing(argv[2..], files) < 0 ==> o.ImportFailed? || o.Committed?
    ensures ExitStatus(o) == 0 ==> forall j :: 2 <= j < |argv| ==> TableKey(argv[j]) in o.db
  {
    if |argv| < 3 {
      return UsageError;
    }
    var paths := argv[2..];
    var missing := FindMissing(paths, files);
    if missing >= 0 {
      return CsvNotFound(paths[missing]);
    }
    var res := ImportFiles(db, paths, files);
    if res.Failure? {
      return ImportFailed(res.error.0, res.error.1);
    }
    o := Committed(res.value);
    assert forall j :: 2 <= j < |argv| ==> argv[j] == paths[j - 2];
  }
}