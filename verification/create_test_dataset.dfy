/** The script that samples the two CSV files down to a small test set: the
    zip rows of ten chosen zips, and the health rows of the counties those
    zips lie in. */
module TestDataset {
  import opened Wrappers
  import Text
  import Seqs
  import Csv

  /** The sampled zips, one per region. */
  const TargetZips: seq<string> := [
    "02138", "10001", "90001", "60601", "75001",
    "98101", "33101", "80201", "19101", "20001"]

  /** The list holds ten distinct five-digit strings. */
  lemma TargetZipsWellFormed()
    ensures |TargetZips| == 10
    ensures forall i :: 0 <= i < |TargetZips| ==> |TargetZips[i]| == 5 && Text.IsDigits(TargetZips[i])
    ensures forall i, j :: 0 <= i < j < |TargetZips| ==> TargetZips[i] != TargetZips[j]
  {
    forall i | 0 <= i < |TargetZips|
      ensures |TargetZips[i]| == 5 && Text.IsDigits(TargetZips[i])
    {
      var z := TargetZips[i];
      assert forall k :: 0 <= k < |z| ==> Text.IsAsciiDigit(z[k]);
    }
  }

  /** A (county, state) pair as the script collects it: the raw fields, `None`
      when the line was short. */
  type CountyKey = (Option<string>, Option<string>)

  /** `row['zip'] in TARGET_ZIPS`: an exact, untrimmed match; a `None` zip
      matches nothing. */
  predicate IsTarget(row: Csv.DictRow)
    requires "zip" in row.fields
  {
    row.fields["zip"].Some? && row.fields["zip"].value in TargetZips
  }

  /** The rows the zip loop writes: those with a target zip. */
  function Targeted(row: Csv.DictRow): bool {
    "zip" in row.fields && IsTarget(row)
  }

  /** A zip row the loop gets through: it has a `zip` column, and when it is
      written it has no overflow fields (`DictWriter` raises on them) and has
      the `county` and `state_abbreviation` columns. */
  predicate ZipRowOk(row: Csv.DictRow) {
    "zip" in row.fields
    && (IsTarget(row) ==> row.rest == [] && "county" in row.fields && "state_abbreviation" in row.fields)
  }

  /** The (county, state) pair of a zip row. */
  function CountyOf(row: Csv.DictRow): CountyKey
    requires "county" in row.fields && "state_abbreviation" in row.fields
  {
    (row.fields["county"], row.fields["state_abbreviation"])
  }

  /** What the zip loop produces: the rows it wrote, in order, and the set of
      their counties. */
  datatype ZipKept = ZipKept(rows: seq<Csv.DictRow>, counties: set<CountyKey>)

  /** The loop of `sample_zip_data` over the rows. */
  function KeepZipRows(rows: seq<Csv.DictRow>): (r: Result<ZipKept, Csv.RowError>)
    ensures r.Success? <==> forall i :: 0 <= i < |rows| ==> ZipRowOk(rows[i])
    ensures r.Success? ==> r.value.rows == Seqs.Filter(Targeted, rows)
    ensures r.Success? ==> forall x :: x in r.value.rows ==>
      "county" in x.fields && "state_abbreviation" in x.fields
  {
    if |rows| == 0 then Success(ZipKept([], {}))
    else
      var row := rows[0];
      assert rows == [row] + rows[1..];
      var zip :- Csv.Get(row, "zip");
      if zip.Some? && zip.value in TargetZips then
        if |row.rest| > 0 then Failure(Csv.ExtraFields)
        else
          var county :- Csv.Get(row, "county");
          var state :- Csv.Get(row, "state_abbreviation");
          var tail :- KeepZipRows(rows[1..]);
          Success(ZipKept([row] + tail.rows, {(county, state)} + tail.counties))
      else
        KeepZipRows(rows[1..])
  }

  /** The county set is the set of counties of the written rows. */
  lemma {:induction false} KeepZipRowsCounties(rows: seq<Csv.DictRow>)
    requires KeepZipRows(rows).Success?
    ensures KeepZipRows(rows).value.counties ==
      set x | x in KeepZipRows(rows).value.rows && "county" in x.fields && "state_abbreviation" in x.fields :: CountyOf(x)
  {
    if |rows| > 0 {
      KeepZipRowsCounties(rows[1..]);
      var r := KeepZipRows(rows).value;
      var t := KeepZipRows(rows[1..]).value;
      if Targeted(rows[0]) {
        assert r.rows == [rows[0]] + t.rows;
        assert r.counties == {CountyOf(rows[0])} + t.counties;
      } else {
        assert r == t;
      }
    }
  }

  /** The header a file's writer is given, and the rows written under it. */
  datatype Sample = Sample(header: Csv.Record, rows: seq<Csv.DictRow>)

  /** Ways a sampling run can stop. */
  datatype SampleError =
    | EmptyInput                     // `fieldnames` is `None`: `writeheader` raises
    | RowFailed(error: Csv.RowError) // a row could not be read or written

  /** `sample_zip_data`, given the records of `zip_county.csv`: the written
      file and the returned county set. */
  function SampleZipData(records: seq<Csv.Record>): (r: Result<(Sample, set<CountyKey>), SampleError>)
    ensures |records| == 0 ==> r == Failure(EmptyInput)
    ensures r.Success? ==> |records| > 0 && r.value.0.header == records[0]
    ensures |records| > 0 ==>
      (r.Success? <==> forall i :: 0 <= i < |Csv.DictReader(records).rows| ==> ZipRowOk(Csv.DictReader(records).rows[i]))
  {
    var file := Csv.DictReader(records);
    if file.fieldnames.None? then Failure(EmptyInput)
    else
      match KeepZipRows(file.rows)
      case Failure(e) => Failure(RowFailed(e))
      case Success(kept) => Success((Sample(file.fieldnames.value, kept.rows), kept.counties))
  }

  /** The zip file written is exactly the input rows with a target zip, in
      input order and unchanged; the county set is exactly the counties of
      those rows. */
  lemma SampleZipDataRows(records: seq<Csv.Record>)
    requires SampleZipData(records).Success?
    ensures SampleZipData(records).value.0.rows == Seqs.Filter(Targeted, Csv.DictReader(records).rows)
    ensures forall row :: row in Csv.DictReader(records).rows ==>
      (row in SampleZipData(records).value.0.rows <==> Targeted(row))
    ensures forall c :: c in SampleZipData(records).value.1 <==>
      exists x :: x in SampleZipData(records).value.0.rows
        && "county" in x.fields && "state_abbreviation" in x.fields && CountyOf(x) == c
  {
    var rows := Csv.DictReader(records).rows;
    var out := SampleZipData(records).value.0.rows;
    KeepZipRowsCounties(rows);
    forall row | row in rows
      ensures row in out <==> Targeted(row)
    {
      if Targeted(row) {
        Seqs.FilterKeeps(Targeted, rows, row);
      }
    }
  }

  /** A health row the loop gets through: it has `county` and `state`
      columns, and when it is written it has no overflow fields. */
  predicate HealthRowOk(counties: set<CountyKey>, row: Csv.DictRow) {
    "county" in row.fields && "state" in row.fields
    && ((row.fields["county"], row.fields["state"]) in counties ==> row.rest == [])
  }

  /** The row's raw county and state form one of the sampled counties. */
  function InCounties(counties: set<CountyKey>): Csv.DictRow -> bool {
    (row: Csv.DictRow) => "county" in row.fields && "state" in row.fields
      && (row.fields["county"], row.fields["state"]) in counties
  }

  /** The loop of `sample_health_data` over the rows. */
  function KeepHealthRows(rows: seq<Csv.DictRow>, counties: set<CountyKey>): (r: Result<seq<Csv.DictRow>, Csv.RowError>)
    ensures r.Success? <==> forall i :: 0 <= i < |rows| ==> HealthRowOk(counties, rows[i])
    ensures r.Success? ==> r.value == Seqs.Filter(InCounties(counties), rows)
  {
    if |rows| == 0 then Success([])
    else
      var row := rows[0];
      assert rows == [row] + rows[1..];
      var county :- Csv.Get(row, "county");
      var state :- Csv.Get(row, "state");
      if (county, state) in counties then
        if |row.rest| > 0 then Failure(Csv.ExtraFields)
        else
          var tail :- KeepHealthRows(rows[1..], counties);
          Success([row] + tail)
      else
        KeepHealthRows(rows[1..], counties)
  }

  /** `sample_health_data(counties)`, given the records of
      `county_health_rankings.csv`. */
  function SampleHealthData(records: seq<Csv.Record>, counties: set<CountyKey>): (r: Result<Sample, SampleError>)
    ensures |records| == 0 ==> r == Failure(EmptyInput)
    ensures r.Success? ==> |records| > 0 && r.value.header == records[0]
    ensures |records| > 0 ==>
      (r.Success? <==> forall i :: 0 <= i < |Csv.DictReader(records).rows| ==> HealthRowOk(counties, Csv.DictReader(records).rows[i]))
    ensures r.Success? ==> r.value.rows == Seqs.Filter(InCounties(counties), Csv.DictReader(records).rows)
  {
    var file := Csv.DictReader(records);
    if file.fieldnames.None? then Failure(EmptyInput)
    else
      match KeepHealthRows(file.rows, counties)
      case Failure(e) => Failure(RowFailed(e))
      case Success(kept) => Success(Sample(file.fieldnames.value, kept))
  }

  /** The whole script: a health row is written exactly when its county and
      state are those of some written zip row (a semi-join), and the written
      health rows keep their input order. */
  lemma SampleIsSemiJoin(zipRecords: seq<Csv.Record>, healthRecords: seq<Csv.Record>)
    requires SampleZipData(zipRecords).Success?
    requires SampleHealthData(healthRecords, SampleZipData(zipRecords).value.1).Success?
    ensures forall row :: row in Csv.DictReader(healthRecords).rows ==>
      (row in SampleHealthData(healthRecords, SampleZipData(zipRecords).value.1).value.rows <==>
        exists z :: z in SampleZipData(zipRecords).value.0.rows
          && "county" in z.fields && "state_abbreviation" in z.fields
          && "county" in row.fields && "state" in row.fields
          && CountyOf(z) == (row.fields["county"], row.fields["state"]))
  {
    var counties := SampleZipData(zipRecords).value.1;
    var rows := Csv.DictReader(healthRecords).rows;
    var out := SampleHealthData(healthRecords, counties).value.rows;
    SampleZipDataRows(zipRecords);
    forall row | row in rows
      ensures row in out <==> InCounties(counties)(row)
    {
      if InCounties(counties)(row) {
        Seqs.FilterKeeps(InCounties(counties), rows, row);
      }
    }
  }
}
