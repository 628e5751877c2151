/** The build step that turns the two CSV files into one compact structure:
    a zip -> (county, state) dictionary and the health records grouped under a
    `county|state|measure` key, every value trimmed of surrounding whitespace. */
module OptimizeData {
  import opened Wrappers
  import Text
  import Seqs
  import Csv
  import Indexes

  /** The zip file is read from its second character when its first is a
      U+FEFF, and from the start otherwise; at most one mark is skipped. */
  function SkipBom(text: string): (r: string)
    ensures text == r || text == [Text.Bom] + r
    ensures |text| > 0 && text[0] == Text.Bom ==> |r| == |text| - 1
  {
    if |text| > 0 && text[0] == Text.Bom then text[1..] else text
  }

  /** Only a single leading mark goes: a second one stays in the text. */
  lemma SkipBomOnce(t: string)
    ensures SkipBom([Text.Bom, Text.Bom] + t) == [Text.Bom] + t
    ensures |t| == 0 || t[0] != Text.Bom ==> SkipBom(t) == t
  {
  }

  /** The named field with surrounding whitespace removed. */
  function Trimmed(row: Csv.DictRow, name: string): (r: Result<string, Csv.RowError>)
    ensures r.Success? <==> Csv.GetString(row, name).Success?
    ensures r.Success? ==> r.value == Text.Strip(Csv.GetString(row, name).value)
  {
    match Csv.GetString(row, name)
    case Failure(e) => Failure(e)
    case Success(v) => Success(Text.Strip(v))
  }

  /** The value stored for a zip. */
  datatype CountyRef = CountyRef(county: string, state: string)

  /** One zip row as a dictionary entry: the trimmed `zip`, and the trimmed
      `county` and `state_abbreviation`. */
  function ZipEntry(row: Csv.DictRow): (r: Result<(string, CountyRef), Csv.RowError>)
    ensures r.Success? <==>
      Trimmed(row, "zip").Success? && Trimmed(row, "county").Success?
      && Trimmed(row, "state_abbreviation").Success?
    ensures r.Success? ==>
      && Trimmed(row, "zip") == Success(r.value.0)
      && Trimmed(row, "county") == Success(r.value.1.county)
      && Trimmed(row, "state_abbreviation") == Success(r.value.1.state)
  {
    var zip :- Trimmed(row, "zip");
    var county :- Trimmed(row, "county");
    var state :- Trimmed(row, "state_abbreviation");
    Success((zip, CountyRef(county, state)))
  }

  /** `zip_to_county`, filled row by row in file order: it is built when
      every row can be read, and then every row's trimmed zip is a key;
      otherwise the first row that cannot be read gives the error. */
  function ZipToCounty(rows: seq<Csv.DictRow>): (r: Result<map<string, CountyRef>, Csv.RowError>)
    ensures r.Success? <==> forall i :: 0 <= i < |rows| ==> ZipEntry(rows[i]).Success?
    ensures r.Failure? ==> exists i :: (0 <= i < |rows| && ZipEntry(rows[i]) == Failure(r.error)
      && forall j :: 0 <= j < i ==> ZipEntry(rows[j]).Success?)
    ensures r.Success? ==> forall i :: 0 <= i < |rows| ==> ZipEntry(rows[i]).value.0 in r.value
  {
    var entries :- Seqs.MapAll(ZipEntry, rows);
    assert forall i :: 0 <= i < |rows| ==> ZipEntry(rows[i]).value == entries[i];
    Success(Indexes.LastWins(entries))
  }

  /** Every trimmed zip of the file is a key, and it holds the trimmed county
      and state of the last row with that zip. */
  lemma ZipToCountyLastWins(rows: seq<Csv.DictRow>)
    requires ZipToCounty(rows).Success?
    ensures forall i :: 0 <= i < |rows| ==> ZipEntry(rows[i]).Success?
    ensures forall i :: 0 <= i < |rows| ==> ZipEntry(rows[i]).value.0 in ZipToCounty(rows).value
    ensures forall z :: z in ZipToCounty(rows).value ==>
      exists i :: (0 <= i < |rows| && ZipEntry(rows[i]) == Success((z, ZipToCounty(rows).value[z]))
        && forall j :: i < j < |rows| ==> ZipEntry(rows[j]).value.0 != z)
  {
    var entries := Seqs.MapAll(ZipEntry, rows).value;
    var m := Indexes.LastWins(entries);
    forall z | z in m
      ensures exists i :: (0 <= i < |rows| && ZipEntry(rows[i]) == Success((z, m[z]))
        && forall j :: i < j < |rows| ==> ZipEntry(rows[j]).value.0 != z)
    {
      var i :| Indexes.IsLastFor(entries, z, i) && m[z] == entries[i].1;
      assert ZipEntry(rows[i]) == Success(entries[i]);
    }
  }

  /** The key a health row is grouped under. */
  datatype HealthKey = HealthKey(county: string, state: string, measure: string)

  /** The columns a stored record is read from, in the order they are read. */
  const RecordColumns: seq<string> := [
    "Year_span", "Measure_id", "Numerator", "Denominator", "Raw_value",
    "Confidence_Interval_Lower_Bound", "Confidence_Interval_Upper_Bound",
    "Data_Release_Year", "fipscode"]

  /** The record stored for a health row: exactly these nine fields; the key
      fields are not repeated. */
  datatype StoredRecord = StoredRecord(
    year_span: string, measure_id: string, numerator: string, denominator: string,
    raw_value: string, confidence_interval_lower_bound: string,
    confidence_interval_upper_bound: string, data_release_year: string, fipscode: string)

  /** The fields of a record, in the order of `RecordColumns`. */
  function Fields(rec: StoredRecord): (r: seq<string>)
    ensures |r| == |RecordColumns|
  {
    [rec.year_span, rec.measure_id, rec.numerator, rec.denominator, rec.raw_value,
     rec.confidence_interval_lower_bound, rec.confidence_interval_upper_bound,
     rec.data_release_year, rec.fipscode]
  }

  /** The record with the given fields, in the order of `RecordColumns`. */
  function FromFields(v: seq<string>): (rec: StoredRecord)
    requires |v| == |RecordColumns|
    ensures Fields(rec) == v
  {
    StoredRecord(v[0], v[1], v[2], v[3], v[4], v[5], v[6], v[7], v[8])
  }

  /** Every field of the record is the trimmed value of its source column. */
  ghost predicate StoredFrom(row: Csv.DictRow, rec: StoredRecord) {
    forall i :: 0 <= i < |RecordColumns| ==> Trimmed(row, RecordColumns[i]) == Success(Fields(rec)[i])
  }

  /** The group key of a health row: its trimmed County, State and
      Measure_name. */
  ghost predicate KeyedBy(row: Csv.DictRow, k: HealthKey) {
    && Trimmed(row, "County") == Success(k.county)
    && Trimmed(row, "State") == Success(k.state)
    && Trimmed(row, "Measure_name") == Success(k.measure)
  }

  /** The key of a health row; fails when one of its columns cannot be read. */
  function ReadKey(row: Csv.DictRow): (r: Result<HealthKey, Csv.RowError>)
    ensures r.Success? <==>
      Trimmed(row, "County").Success? && Trimmed(row, "State").Success? && Trimmed(row, "Measure_name").Success?
    ensures r.Success? ==> KeyedBy(row, r.value)
  {
    var county :- Trimmed(row, "County");
    var state :- Trimmed(row, "State");
    var measure :- Trimmed(row, "Measure_name");
    Success(HealthKey(county, state, measure))
  }

  /** The trimmed values of the named columns; the first column that cannot
      be read gives the error. */
  function ReadColumns(row: Csv.DictRow, names: seq<string>): (r: Result<seq<string>, Csv.RowError>)
    ensures r.Success? <==> forall i :: 0 <= i < |names| ==> Trimmed(row, names[i]).Success?
    ensures r.Success? ==> |r.value| == |names| && forall i :: 0 <= i < |names| ==> Trimmed(row, names[i]) == Success(r.value[i])
    ensures r.Failure? ==> exists i :: (0 <= i < |names| && Trimmed(row, names[i]) == Failure(r.error)
      && forall j :: 0 <= j < i ==> Trimmed(row, names[j]).Success?)
  {
    Seqs.MapAll((n: string) => Trimmed(row, n), names)
  }

  /** The record of a health row; fails when one of its columns cannot be read. */
  function ReadRecord(row: Csv.DictRow): (r: Result<StoredRecord, Csv.RowError>)
    ensures r.Success? <==> forall i :: 0 <= i < |RecordColumns| ==> Trimmed(row, RecordColumns[i]).Success?
    ensures r.Success? ==> StoredFrom(row, r.value)
  {
    var v :- ReadColumns(row, RecordColumns);
    Success(FromFields(v))
  }

  /** One health row as a (key, record) pair: the key columns are read
      first, so their errors come first. */
  function HealthEntry(row: Csv.DictRow): (r: Result<(HealthKey, StoredRecord), Csv.RowError>)
    ensures r.Success? <==> ReadKey(row).Success? && ReadRecord(row).Success?
    ensures ReadKey(row).Failure? ==> r == Failure(ReadKey(row).error)
    ensures r.Success? ==> r.value == (ReadKey(row).value, ReadRecord(row).value)
  {
    var k :- ReadKey(row);
    var rec :- ReadRecord(row);
    Success((k, rec))
  }

  /** `health_data`: each row's record appended, in file order, to the list
      of its key. It is built when every row can be read, and then every
      row's key is listed; otherwise the first row that cannot be read gives
      the error. */
  function HealthData(rows: seq<Csv.DictRow>): (r: Result<Indexes.Grouping<HealthKey, StoredRecord>, Csv.RowError>)
    ensures r.Success? <==> forall i :: 0 <= i < |rows| ==> HealthEntry(rows[i]).Success?
    ensures r.Failure? ==> exists i :: (0 <= i < |rows| && HealthEntry(rows[i]) == Failure(r.error)
      && forall j :: 0 <= j < i ==> HealthEntry(rows[j]).Success?)
    ensures r.Success? ==> forall i :: 0 <= i < |rows| ==> HealthEntry(rows[i]).value.0 in r.value.groups
  {
    var entries :- Seqs.MapAll(HealthEntry, rows);
    assert forall i :: 0 <= i < |rows| ==> HealthEntry(rows[i]).value == entries[i];
    Success(Indexes.Group(entries))
  }

  /** The record of an entry keyed `k`, as a list of zero or one. */
  function Matching(e: Result<(HealthKey, StoredRecord), Csv.RowError>, k: HealthKey): seq<StoredRecord> {
    if e.Success? && e.value.0 == k then [e.value.1] else []
  }

  /** The records of the rows keyed `k`, in file order: a reference
      definition of one group, independent of the grouping loop. */
  function RecordsOf(rows: seq<Csv.DictRow>, k: HealthKey): (r: seq<StoredRecord>)
    ensures |r| <= |rows|
  {
    if |rows| == 0 then []
    else
      RecordsOf(rows[..|rows| - 1], k) + Matching(HealthEntry(rows[|rows| - 1]), k)
  }

  lemma {:induction false} RecordsOfValues(rows: seq<Csv.DictRow>, entries: seq<(HealthKey, StoredRecord)>, k: HealthKey)
    requires |entries| == |rows|
    requires forall i :: 0 <= i < |rows| ==> HealthEntry(rows[i]) == Success(entries[i])
    ensures Indexes.ValuesFor(entries, k) == RecordsOf(rows, k)
  {
    if |rows| > 0 {
      RecordsOfValues(rows[..|rows| - 1], entries[..|entries| - 1], k);
    }
  }

  /** `health_data` partitions the rows: every row is read, the keys are
      listed once each, each key's list is
      exactly the records of the rows with that key in file order, and the
      list lengths add up to the number of rows. */
  lemma HealthDataGroups(rows: seq<Csv.DictRow>)
    requires HealthData(rows).Success?
    ensures forall i :: 0 <= i < |rows| ==> HealthEntry(rows[i]).Success?
    ensures Indexes.Distinct(HealthData(rows).value.order)
    ensures forall i :: 0 <= i < |rows| ==> HealthEntry(rows[i]).value.0 in HealthData(rows).value.groups
    ensures forall k :: k in HealthData(rows).value.groups <==> k in HealthData(rows).value.order
    ensures forall k :: k in HealthData(rows).value.groups ==>
      HealthData(rows).value.groups[k] == RecordsOf(rows, k) && |RecordsOf(rows, k)| > 0
    ensures Indexes.SumSizes(HealthData(rows).value.order, HealthData(rows).value.groups) == |rows|
  {
    var entries := Seqs.MapAll(HealthEntry, rows).value;
    var g := Indexes.Group(entries);
    forall k | k in g.groups
      ensures g.groups[k] == RecordsOf(rows, k)
    {
      RecordsOfValues(rows, entries, k);
    }
    Indexes.GroupSizes(entries);
  }

  /** The text key a group is stored under. */
  function SerializeKey(k: HealthKey): string {
    k.county + "|" + k.state + "|" + k.measure
  }

  predicate PipeFree(k: HealthKey) {
    '|' !in k.county && '|' !in k.state && '|' !in k.measure
  }

  /** When no part contains `|`, splitting the text key on `|` gives the
      three parts back. */
  lemma SerializeKeySplit(k: HealthKey)
    requires PipeFree(k)
    ensures Text.Split(SerializeKey(k), '|') == [k.county, k.state, k.measure]
  {
    assert SerializeKey(k) == k.county + ['|'] + (k.state + ['|'] + k.measure);
    Text.SplitFirst(k.county, k.state + ['|'] + k.measure, '|');
    Text.SplitFirst(k.state, k.measure, '|');
    Text.SplitNone(k.measure, '|');
  }

  /** Distinct `|`-free keys get distinct text keys. */
  lemma SerializeKeyInjective(k1: HealthKey, k2: HealthKey)
    requires PipeFree(k1) && PipeFree(k2)
    ensures SerializeKey(k1) == SerializeKey(k2) <==> k1 == k2
  {
    SerializeKeySplit(k1);
    SerializeKeySplit(k2);
  }

  /** A `|` inside a county name lets two different keys share a text key. */
  lemma SerializeKeyCollision()
    ensures HealthKey("A|B", "C", "M") != HealthKey("A", "B|C", "M")
    ensures SerializeKey(HealthKey("A|B", "C", "M")) == SerializeKey(HealthKey("A", "B|C", "M"))
  {
  }

  /** The (text key, records) pairs in key order. */
  function KeyedGroups(g: Indexes.Grouping<HealthKey, StoredRecord>): (r: seq<(string, seq<StoredRecord>)>)
    requires forall i :: 0 <= i < |g.order| ==> g.order[i] in g.groups
    ensures |r| == |g.order|
    ensures forall i :: 0 <= i < |r| ==> r[i] == (SerializeKey(g.order[i]), g.groups[g.order[i]])
  {
    seq(|g.order|, i requires 0 <= i < |g.order| => (SerializeKey(g.order[i]), g.groups[g.order[i]]))
  }

  /** `health_data_serializable`: the groups under their text keys, built in
      key order, so a later key overwrites an earlier one with the same text. */
  function Serialize(g: Indexes.Grouping<HealthKey, StoredRecord>): (out: map<string, seq<StoredRecord>>)
    requires forall i :: 0 <= i < |g.order| ==> g.order[i] in g.groups
    ensures forall i :: 0 <= i < |g.order| ==> SerializeKey(g.order[i]) in out
    ensures forall s :: s in out ==>
      exists i :: (0 <= i < |g.order| && SerializeKey(g.order[i]) == s && out[s] == g.groups[g.order[i]])
  {
    var pairs := KeyedGroups(g);
    var out := Indexes.LastWins(pairs);
    forall s | s in out
      ensures exists i :: (0 <= i < |g.order| && SerializeKey(g.order[i]) == s && out[s] == g.groups[g.order[i]])
    {
      var i :| Indexes.IsLastFor(pairs, s, i) && out[s] == pairs[i].1;
    }
    out
  }

  /** With `|`-free keys nothing is overwritten: each key's group is found
      under its text key. */
  lemma SerializeKeepsGroups(g: Indexes.Grouping<HealthKey, StoredRecord>)
    requires forall i :: 0 <= i < |g.order| ==> g.order[i] in g.groups && PipeFree(g.order[i])
    ensures forall i :: 0 <= i < |g.order| ==> Serialize(g)[SerializeKey(g.order[i])] == g.groups[g.order[i]]
  {
    var out := Serialize(g);
    forall i | 0 <= i < |g.order|
      ensures out[SerializeKey(g.order[i])] == g.groups[g.order[i]]
    {
      var s := SerializeKey(g.order[i]);
      var j :| 0 <= j < |g.order| && SerializeKey(g.order[j]) == s && out[s] == g.groups[g.order[j]];
      SerializeKeyInjective(g.order[i], g.order[j]);
    }
  }

  /** The structure written out: `zip_to_county` and `health_data`. */
  datatype Optimized = Optimized(zipToCounty: map<string, CountyRef>, healthData: map<string, seq<StoredRecord>>)

  /** The rows of the zip file, read past a leading byte-order mark. */
  function ZipRows(zipText: string, parse: string -> seq<Csv.Record>): seq<Csv.DictRow> {
    Csv.DictReader(parse(SkipBom(zipText))).rows
  }

  /** The rows of the health file. */
  function HealthRows(healthText: string, parse: string -> seq<Csv.Record>): seq<Csv.DictRow> {
    Csv.DictReader(parse(healthText)).rows
  }

  /** `process_csvs` over the texts of `zip_county.csv` and
      `county_health_rankings.csv`; `parse` is the CSV tokenizer. It succeeds
      exactly when every row of both files can be read. The zip file is read
      completely before the health file, so when a zip row cannot be read
      the first such row gives the error. On success every zip row's
      trimmed zip is a key of `zip_to_county`, and every health row's text
      key is a key of `health_data`. */
  function ProcessCsvs(zipText: string, healthText: string, parse: string -> seq<Csv.Record>): (r: Result<Optimized, Csv.RowError>)
    ensures r.Success? <==>
      (forall i :: 0 <= i < |ZipRows(zipText, parse)| ==> ZipEntry(ZipRows(zipText, parse)[i]).Success?)
      && (forall i :: 0 <= i < |HealthRows(healthText, parse)| ==> HealthEntry(HealthRows(healthText, parse)[i]).Success?)
    ensures (exists i :: 0 <= i < |ZipRows(zipText, parse)| && ZipEntry(ZipRows(zipText, parse)[i]).Failure?) ==>
      r.Failure? && exists i :: (0 <= i < |ZipRows(zipText, parse)| && ZipEntry(ZipRows(zipText, parse)[i]) == Failure(r.error)
        && forall j :: 0 <= j < i ==> ZipEntry(ZipRows(zipText, parse)[j]).Success?)
    ensures r.Success? ==> forall i :: 0 <= i < |ZipRows(zipText, parse)| ==>
      ZipEntry(ZipRows(zipText, parse)[i]).value.0 in r.value.zipToCounty
    ensures r.Success? ==> forall i :: 0 <= i < |HealthRows(healthText, parse)| ==>
      SerializeKey(HealthEntry(HealthRows(healthText, parse)[i]).value.0) in r.value.healthData
  {
    var zipRows := ZipRows(zipText, parse);
    var zipToCounty :- ZipToCounty(zipRows);
    var healthRows := HealthRows(healthText, parse);
    var grouping :- HealthData(healthRows);
    SerializedRowKeys(healthRows);
    Success(Optimized(zipToCounty, Serialize(grouping)))
  }

  /** Every row's text key is a key of `health_data_serializable`. */
  lemma SerializedRowKeys(rows: seq<Csv.DictRow>)
    requires HealthData(rows).Success?
    ensures forall i :: 0 <= i < |rows| ==> SerializeKey(HealthEntry(rows[i]).value.0) in Serialize(HealthData(rows).value)
  {
    var g := HealthData(rows).value;
    assert Indexes.IsGroupingOf(Seqs.MapAll(HealthEntry, rows).value, g);
    forall i | 0 <= i < |rows|
      ensures SerializeKey(HealthEntry(rows[i]).value.0) in Serialize(g)
    {
      var k := HealthEntry(rows[i]).value.0;
      var n :| 0 <= n < |g.order| && g.order[n] == k;
    }
  }

  /** Every key of `zip_to_county` is the trimmed zip of some zip row, and
      it holds the county and state of the last row with that zip. */
  lemma ZipLookup(zipText: string, healthText: string, parse: string -> seq<Csv.Record>)
    requires ProcessCsvs(zipText, healthText, parse).Success?
    ensures forall z :: z in ProcessCsvs(zipText, healthText, parse).value.zipToCounty ==>
      exists i :: (0 <= i < |ZipRows(zipText, parse)|
        && ZipEntry(ZipRows(zipText, parse)[i]) == Success((z, ProcessCsvs(zipText, healthText, parse).value.zipToCounty[z]))
        && forall j :: i < j < |ZipRows(zipText, parse)| ==> ZipEntry(ZipRows(zipText, parse)[j]).value.0 != z)
  {
    ZipToCountyLastWins(ZipRows(zipText, parse));
  }

  /** A leading byte-order mark on the zip file changes nothing. */
  lemma ProcessCsvsIgnoresBom(zipText: string, healthText: string, parse: string -> seq<Csv.Record>)
    requires |zipText| == 0 || zipText[0] != Text.Bom
    ensures ProcessCsvs([Text.Bom] + zipText, healthText, parse) == ProcessCsvs(zipText, healthText, parse)
  {
    assert ([Text.Bom] + zipText)[1..] == zipText;
  }

  /** Every listed key is the key of some row. */
  lemma GroupKeysFromRows(rows: seq<Csv.DictRow>)
    requires HealthData(rows).Success?
    ensures forall key :: key in HealthData(rows).value.groups ==>
      exists j :: 0 <= j < |rows| && HealthEntry(rows[j]).Success? && HealthEntry(rows[j]).value.0 == key
  {
    var entries := Seqs.MapAll(HealthEntry, rows).value;
    var g := Indexes.Group(entries);
    Indexes.GroupKeysOfPairs(entries);
    forall key | key in g.groups
      ensures exists j :: 0 <= j < |rows| && HealthEntry(rows[j]).Success? && HealthEntry(rows[j]).value.0 == key
    {
      var j :| 0 <= j < |entries| && entries[j].0 == key;
      assert HealthEntry(rows[j]) == Success(entries[j]);
    }
  }

  /** With `|`-free keys, each group is found under its text key. */
  lemma SerializedGroups(rows: seq<Csv.DictRow>, k: HealthKey)
    requires HealthData(rows).Success?
    requires forall i :: 0 <= i < |rows| && HealthEntry(rows[i]).Success? ==> PipeFree(HealthEntry(rows[i]).value.0)
    requires k in HealthData(rows).value.groups
    ensures SerializeKey(k) in Serialize(HealthData(rows).value)
    ensures Serialize(HealthData(rows).value)[SerializeKey(k)] == RecordsOf(rows, k)
  {
    var g := HealthData(rows).value;
    OrderPipeFree(rows);
    SerializeKeepsGroups(g);
    HealthDataGroups(rows);
    var n :| 0 <= n < |g.order| && g.order[n] == k;
  }

  lemma OrderPipeFree(rows: seq<Csv.DictRow>)
    requires HealthData(rows).Success?
    requires forall i :: 0 <= i < |rows| && HealthEntry(rows[i]).Success? ==> PipeFree(HealthEntry(rows[i]).value.0)
    ensures forall i :: 0 <= i < |HealthData(rows).value.order| ==>
      HealthData(rows).value.order[i] in HealthData(rows).value.groups && PipeFree(HealthData(rows).value.order[i])
  {
    var g := HealthData(rows).value;
    GroupKeysFromRows(rows);
    assert Indexes.IsGroupingOf(Seqs.MapAll(HealthEntry, rows).value, g);
  }

  /** No row keyed `k`, no records. */
  lemma {:induction false} RecordsOfNone(rows: seq<Csv.DictRow>, k: HealthKey)
    requires forall i :: 0 <= i < |rows| ==> !(HealthEntry(rows[i]).Success? && HealthEntry(rows[i]).value.0 == k)
    ensures RecordsOf(rows, k) == []
  {
    if |rows| > 0 {
      RecordsOfNone(rows[..|rows| - 1], k);
    }
  }

  /** Looking up a county, state and measure in the written structure, as
      `health_data.get(key, [])` does: provided no key holds a `|`, the text
      key is present exactly when some health row has that county, state and
      measure, and the lookup gives the records of those rows in file order
      (none when the key is absent). */
  lemma HealthLookup(zipText: string, healthText: string, parse: string -> seq<Csv.Record>, k: HealthKey)
    requires ProcessCsvs(zipText, healthText, parse).Success?
    requires forall i :: 0 <= i < |HealthRows(healthText, parse)| ==>
      PipeFree(HealthEntry(HealthRows(healthText, parse)[i]).value.0)
    requires PipeFree(k)
    ensures SerializeKey(k) in ProcessCsvs(zipText, healthText, parse).value.healthData <==>
      exists i :: 0 <= i < |HealthRows(healthText, parse)| && HealthEntry(HealthRows(healthText, parse)[i]).value.0 == k
    ensures SerializeKey(k) in ProcessCsvs(zipText, healthText, parse).value.healthData ==>
      ProcessCsvs(zipText, healthText, parse).value.healthData[SerializeKey(k)] == RecordsOf(HealthRows(healthText, parse), k)
    ensures SerializeKey(k) !in ProcessCsvs(zipText, healthText, parse).value.healthData ==>
      RecordsOf(HealthRows(healthText, parse), k) == []
  {
    SerializedLookup(HealthRows(healthText, parse), k);
  }

  /** `HealthLookup` for the grouping of one file's rows. */
  lemma SerializedLookup(rows: seq<Csv.DictRow>, k: HealthKey)
    requires HealthData(rows).Success?
    requires forall i :: 0 <= i < |rows| ==> PipeFree(HealthEntry(rows[i]).value.0)
    requires PipeFree(k)
    ensures SerializeKey(k) in Serialize(HealthData(rows).value) <==>
      exists i :: 0 <= i < |rows| && HealthEntry(rows[i]).value.0 == k
    ensures SerializeKey(k) in Serialize(HealthData(rows).value) ==>
      Serialize(HealthData(rows).value)[SerializeKey(k)] == RecordsOf(rows, k)
    ensures SerializeKey(k) !in Serialize(HealthData(rows).value) ==> RecordsOf(rows, k) == []
  {
    var g := HealthData(rows).value;
    var hd := Serialize(g);
    if k in g.groups {
      SerializedGroups(rows, k);
      GroupKeysFromRows(rows);
    } else {
      assert forall i :: 0 <= i < |rows| ==> HealthEntry(rows[i]).value.0 != k;
      RecordsOfNone(rows, k);
      if SerializeKey(k) in hd {
        OrderPipeFree(rows);
        var n :| 0 <= n < |g.order| && SerializeKey(g.order[n]) == SerializeKey(k) && hd[SerializeKey(k)] == g.groups[g.order[n]];
        SerializeKeyInjective(g.order[n], k);
        assert false;
      }
    }
  }
}