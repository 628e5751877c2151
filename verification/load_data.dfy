/** The build step that indexes the raw CSV rows: a dictionary from the
    untrimmed zip to its county, and the health rows grouped whole under
    their (county, state, measure_name) triple. */
module LoadData {
  import opened Wrappers
  import Seqs
  import Csv
  import Indexes

  /** `load_csv_to_dict`: the `DictReader` rows of the file, as a list. A file
      without blank lines gives one row per data line, in file order, built
      from the header and that line. */
  function LoadCsvToDict(records: seq<Csv.Record>): (rows: seq<Csv.DictRow>)
    ensures |records| == 0 ==> rows == []
    ensures |records| > 0 ==> |rows| <= |records| - 1
    ensures |records| > 0 && (forall i :: 1 <= i < |records| ==> |records[i]| > 0) ==>
      |rows| == |records| - 1
      && forall k :: 0 <= k < |rows| ==> rows[k] == Csv.MakeRow(records[0], records[k + 1])
  {
    Csv.DictReader(records).rows
  }

  /** A `zip_mapping` value: the row's raw `county`, `state_abbreviation`
      and `county_code` (`None` when the line was short). */
  datatype ZipInfo = ZipInfo(county: Option<string>, state: Option<string>, countyCode: Option<string>)

  /** One assignment `zip_mapping[row['zip']] = {...}`. Python evaluates the
      value before the subscript, so a missing `zip` column is reported after
      the three value columns. */
  function ZipMappingEntry(row: Csv.DictRow): (r: Result<(Option<string>, ZipInfo), Csv.RowError>)
    ensures r.Success? <==>
      "county" in row.fields && "state_abbreviation" in row.fields && "county_code" in row.fields
      && "zip" in row.fields
    ensures r.Success? ==> r.value == (row.fields["zip"],
      ZipInfo(row.fields["county"], row.fields["state_abbreviation"], row.fields["county_code"]))
    ensures (r.Failure? && "county" in row.fields && "state_abbreviation" in row.fields
      && "county_code" in row.fields) ==> r.error == Csv.KeyError("zip")
  {
    var county :- Csv.Get(row, "county");
    var state :- Csv.Get(row, "state_abbreviation");
    var code :- Csv.Get(row, "county_code");
    var zip :- Csv.Get(row, "zip");
    Success((zip, ZipInfo(county, state, code)))
  }

  /** `zip_mapping`, filled row by row in file order: it is built when every
      row has the four columns; otherwise the first row missing one gives
      the `KeyError`. */
  function ZipMapping(rows: seq<Csv.DictRow>): (r: Result<map<Option<string>, ZipInfo>, Csv.RowError>)
    ensures r.Success? <==> forall i :: 0 <= i < |rows| ==> ZipMappingEntry(rows[i]).Success?
    ensures r.Failure? ==> exists i :: (0 <= i < |rows| && ZipMappingEntry(rows[i]) == Failure(r.error)
      && forall j :: 0 <= j < i ==> ZipMappingEntry(rows[j]).Success?)
  {
    var entries :- Seqs.MapAll(ZipMappingEntry, rows);
    Success(Indexes.LastWins(entries))
  }

  /** Every raw zip of the file is a key, and it holds the county, state and
      county code of the last row with that zip. */
  lemma ZipMappingLastWins(rows: seq<Csv.DictRow>)
    requires ZipMapping(rows).Success?
    ensures forall i :: 0 <= i < |rows| ==> "zip" in rows[i].fields && rows[i].fields["zip"] in ZipMapping(rows).value
    ensures forall z :: z in ZipMapping(rows).value ==>
      exists i :: (0 <= i < |rows| && ZipMappingEntry(rows[i]) == Success((z, ZipMapping(rows).value[z]))
        && forall j :: i < j < |rows| ==> rows[j].fields["zip"] != z)
  {
    var entries := Seqs.MapAll(ZipMappingEntry, rows).value;
    var m := Indexes.LastWins(entries);
    forall z | z in m
      ensures exists i :: (0 <= i < |rows| && ZipMappingEntry(rows[i]) == Success((z, m[z]))
        && forall j :: i < j < |rows| ==> rows[j].fields["zip"] != z)
    {
      var i :| Indexes.IsLastFor(entries, z, i) && m[z] == entries[i].1;
      assert ZipMappingEntry(rows[i]) == Success(entries[i]);
    }
  }

  /** The raw (county, state, measure_name) triple a health row is grouped
      under. */
  type Triple = (Option<string>, Option<string>, Option<string>)

  /** The key of a health row: its raw `county`, `state` and `measure_name`
      fields, read in that order. */
  function KeyOf(row: Csv.DictRow): (r: Result<Triple, Csv.RowError>)
    ensures r.Success? <==> "county" in row.fields && "state" in row.fields && "measure_name" in row.fields
    ensures r.Success? ==> r.value == (row.fields["county"], row.fields["state"], row.fields["measure_name"])
  {
    var county :- Csv.Get(row, "county");
    var state :- Csv.Get(row, "state");
    var measure :- Csv.Get(row, "measure_name");
    Success((county, state, measure))
  }

  /** The row paired with its key: rows are stored whole. */
  function HealthPair(row: Csv.DictRow): (r: Result<(Triple, Csv.DictRow), Csv.RowError>)
    ensures r.Success? <==> KeyOf(row).Success?
    ensures r.Success? ==> r.value.0 == KeyOf(row).value && r.value.1 == row
  {
    var k :- KeyOf(row);
    Success((k, row))
  }

  /** `health_mapping`, filled row by row in file order: it is built when
      every row has the three key columns; otherwise the first row missing
      one gives the `KeyError`. */
  function HealthMapping(rows: seq<Csv.DictRow>): (r: Result<Indexes.Grouping<Triple, Csv.DictRow>, Csv.RowError>)
    ensures r.Success? <==> forall i :: 0 <= i < |rows| ==> KeyOf(rows[i]).Success?
    ensures r.Failure? ==> exists i :: (0 <= i < |rows| && KeyOf(rows[i]) == Failure(r.error)
      && forall j :: 0 <= j < i ==> KeyOf(rows[j]).Success?)
  {
    var entries :- Seqs.MapAll(HealthPair, rows);
    Success(Indexes.Group(entries))
  }

  /** The rows with key `k`, in file order. */
  function RowsWithKey(rows: seq<Csv.DictRow>, k: Triple): (r: seq<Csv.DictRow>)
    ensures forall x :: x in r ==> x in rows && KeyOf(x) == Success(k)
  {
    Seqs.Filter((row: Csv.DictRow) => KeyOf(row) == Success(k), rows)
  }

  lemma {:induction false} ValuesForRows(rows: seq<Csv.DictRow>, entries: seq<(Triple, Csv.DictRow)>, k: Triple)
    requires |entries| == |rows|
    requires forall i :: 0 <= i < |rows| ==> HealthPair(rows[i]) == Success(entries[i])
    ensures Indexes.ValuesFor(entries, k) == RowsWithKey(rows, k)
  {
    if |rows| > 0 {
      var n := |rows| - 1;
      var p := (row: Csv.DictRow) => KeyOf(row) == Success(k);
      ValuesForRows(rows[..n], entries[..n], k);
      assert rows == rows[..n] + [rows[n]];
      Seqs.FilterConcat(p, rows[..n], [rows[n]]);
      assert Seqs.Filter(p, [rows[n]]) == if p(rows[n]) then [rows[n]] else [];
    }
  }

  /** `health_mapping` partitions the rows: each group is exactly the rows
      with that key, whole and in file order; every row's key is listed once;
      and the group sizes add up to the number of rows. */
  lemma HealthMappingGroups(rows: seq<Csv.DictRow>)
    requires HealthMapping(rows).Success?
    ensures forall i :: 0 <= i < |rows| ==>
      KeyOf(rows[i]).Success? && KeyOf(rows[i]).value in HealthMapping(rows).value.groups
    ensures forall k :: k in HealthMapping(rows).value.groups ==>
      HealthMapping(rows).value.groups[k] == RowsWithKey(rows, k)
    ensures Indexes.Distinct(HealthMapping(rows).value.order)
    ensures forall k :: k in HealthMapping(rows).value.groups <==> k in HealthMapping(rows).value.order
    ensures Indexes.SumSizes(HealthMapping(rows).value.order, HealthMapping(rows).value.groups) == |rows|
  {
    var entries := Seqs.MapAll(HealthPair, rows).value;
    var g := Indexes.Group(entries);
    forall k | k in g.groups
      ensures g.groups[k] == RowsWithKey(rows, k)
    {
      ValuesForRows(rows, entries, k);
    }
    Indexes.GroupSizes(entries);
  }
}
