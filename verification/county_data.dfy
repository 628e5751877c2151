/** The `/county_data` endpoint: request validation, then a two-hop lookup
    zip -> (county, state) -> health records, over two in-memory tables. */
module CountyData {
  import opened Wrappers
  import Seqs
  import Text

  /** The twelve measure labels a request may ask for (case-sensitive). */
  const ValidMeasures: set<string> := {
    "Violent crime rate",
    "Unemployment",
    "Children in poverty",
    "Diabetic screening",
    "Mammography screening",
    "Preventable hospital stays",
    "Uninsured",
    "Sexually transmitted infections",
    "Physical inactivity",
    "Adult obesity",
    "Premature Death",
    "Daily fine particulate matter"
  }

  lemma TwelveMeasures()
    ensures |ValidMeasures| == 12
  {
  }

  /** A row of table `zip_county`; every column is TEXT. */
  datatype ZipRow = ZipRow(
    zip: string, default_state: string, county: string, county_state: string,
    state_abbreviation: string, county_code: string, zip_pop: string,
    zip_pop_in_county: string, n_counties: string, default_city: string)

  /** A row of table `county_health_rankings`; every column is TEXT and is
      passed through to the response unchanged. */
  datatype HealthRow = HealthRow(
    state: string, county: string, state_code: string, county_code: string,
    year_span: string, measure_name: string, measure_id: string, numerator: string,
    denominator: string, raw_value: string, confidence_interval_lower_bound: string,
    confidence_interval_upper_bound: string, data_release_year: string, fipscode: string)

  /** The in-memory database `init_db` fills: both tables hold the given rows
      in insertion order, which is the order a `SELECT` reads them in. */
  datatype Database = Database(zipCounty: seq<ZipRow>, healthRankings: seq<HealthRow>)

  /** The columns `get_county_from_zip` selects. */
  datatype CountyInfo = CountyInfo(county: string, state: string, countyCode: string)

  /** The index of the first row whose `zip` equals `zip`, or -1. */
  function FirstZipIndex(rows: seq<ZipRow>, zip: string): (r: int)
    ensures -1 <= r < |rows|
    ensures r >= 0 ==> rows[r].zip == zip
    ensures forall j :: 0 <= j < |rows| && (r < 0 || j < r) ==> rows[j].zip != zip
  {
    if |rows| == 0 then -1
    else if rows[0].zip == zip then 0
    else
      var k := FirstZipIndex(rows[1..], zip);
      if k < 0 then -1 else k + 1
  }

  /** Row `i` is the first row of `rows` with this zip. */
  ghost predicate FirstZipRow(rows: seq<ZipRow>, zip: string, i: int) {
    0 <= i < |rows| && rows[i].zip == zip && forall j :: 0 <= j < i ==> rows[j].zip != zip
  }

  function InfoOf(row: ZipRow): CountyInfo {
    CountyInfo(row.county, row.state_abbreviation, row.county_code)
  }

  /** The zip query: the county, state abbreviation and county code of the
      first `zip_county` row with this zip, or nothing when no row has it. */
  function GetCountyFromZip(zip: string, db: Database): (r: Option<CountyInfo>)
    ensures r.None? <==> forall j :: 0 <= j < |db.zipCounty| ==> db.zipCounty[j].zip != zip
    ensures r.Some? ==>
      exists i :: FirstZipRow(db.zipCounty, zip, i) && r.value == InfoOf(db.zipCounty[i])
  {
    var i := FirstZipIndex(db.zipCounty, zip);
    if i < 0 then None
    else
      assert FirstZipRow(db.zipCounty, zip, i);
      Some(InfoOf(db.zipCounty[i]))
  }

  predicate HealthMatches(row: HealthRow, county: string, state: string, measure: string) {
    row.county == county && row.state == state && row.measure_name == measure
  }

  /** The health query: every `county_health_rankings` row with this county,
      state and measure name, whole, in table order. */
  function GetHealthData(county: string, state: string, measure: string, db: Database): (r: seq<HealthRow>)
    ensures forall row :: row in r ==> row in db.healthRankings && HealthMatches(row, county, state, measure)
    ensures forall row :: row in db.healthRankings && HealthMatches(row, county, state, measure) ==>
      multiset(r)[row] == multiset(db.healthRankings)[row]
  {
    Seqs.Filter((row: HealthRow) => HealthMatches(row, county, state, measure), db.healthRankings)
  }

  /** The health query reads the table in order: the matches among earlier
      rows come before the matches among later rows. */
  lemma GetHealthDataInOrder(county: string, state: string, measure: string,
                             a: seq<HealthRow>, b: seq<HealthRow>, zips: seq<ZipRow>)
    ensures GetHealthData(county, state, measure, Database(zips, a + b))
      == GetHealthData(county, state, measure, Database(zips, a))
       + GetHealthData(county, state, measure, Database(zips, b))
  {
    Seqs.FilterConcat((row: HealthRow) => HealthMatches(row, county, state, measure), a, b);
  }

  /** A JSON value as `request.get_json()` decodes it. */
  datatype Json =
    | JNull
    | JBool(b: bool)
    | JNumber(n: int)
    | JString(s: string)
    | JArray(items: seq<Json>)
    | JObject(members: map<string, Json>)

  /** Python truthiness of `data.get(key)`: a missing key reads as `None`. */
  predicate Truthy(v: Option<Json>) {
    match v
    case None => false
    case Some(JNull) => false
    case Some(JBool(b)) => b
    case Some(JNumber(n)) => n != 0
    case Some(JString(s)) => |s| > 0
    case Some(JArray(items)) => |items| > 0
    case Some(JObject(members)) => |members| > 0
  }

  function Field(body: map<string, Json>, key: string): Option<Json> {
    if key in body then Some(body[key]) else None
  }

  /** A POST to `/county_data`: whether its content type is JSON, and the
      JSON object it carries. */
  datatype Request = Request(isJson: bool, body: map<string, Json>)

  datatype Response =
    | JsonError(status: int, message: string)  // `{"error": message}` with `status`
    | Teapot                                   // 418 with the plain text "I'm a teapot"
    | Ok(records: seq<HealthRow>)              // 200 with the list of records

  function Status(r: Response): int {
    match r
    case JsonError(status, _) => status
    case Teapot => 418
    case Ok(_) => 200
  }

  const ContentTypeMessage := "Content-Type must be application/json"
  const MissingFieldsMessage := "Both zip and measure_name are required"
  const ZipFormatMessage := "Invalid zip code format"
  const MeasureMessage := "Invalid measure_name"
  // The `TypeError` text of the handler's catch-all for a list or dict measure
  const UnhashableListMessage := "unhashable type: 'list'"
  const UnhashableDictMessage := "unhashable type: 'dict'"

  function NoCountyMessage(zip: string): string {
    "No county found for zip code " + zip
  }

  function NoDataMessage(county: string, state: string, measure: string): string {
    "No data found for " + county + ", " + state + " with measure " + measure
  }

  /** The zip format check: a string of exactly five digits. */
  predicate IsZipFormat(v: Option<Json>) {
    v.Some? && v.value.JString? && |v.value.s| == 5 && Text.IsDigits(v.value.s)
  }

  /** A request that passed every check: the zip and measure to look up. */
  datatype Query = Query(zip: string, measure: string)

  /** The request is JSON, is not the teapot request, and carries a truthy
      `zip` and `measure_name`. */
  ghost predicate FieldsPresent(req: Request) {
    && req.isJson
    && Field(req.body, "coffee") != Some(JString("teapot"))
    && Truthy(Field(req.body, "zip"))
    && Truthy(Field(req.body, "measure_name"))
  }

  /** Every check passes: a present, well-formed zip and a listed measure. */
  ghost predicate PassesChecks(req: Request) {
    && FieldsPresent(req)
    && IsZipFormat(Field(req.body, "zip"))
    && Field(req.body, "measure_name").value.JString?
    && Field(req.body, "measure_name").value.s in ValidMeasures
  }

  /** The checks `county_data` runs before touching any data, in order; the
      first failing check decides the response. */
  function Validate(req: Request): (r: Result<Query, Response>)
    ensures r.Success? <==> PassesChecks(req)
    ensures r.Success? ==> r.value == Query(req.body["zip"].s, req.body["measure_name"].s)
    ensures r.Success? ==>
      r.value.measure in ValidMeasures && |r.value.zip| == 5 && Text.IsDigits(r.value.zip)
  {
    var body := req.body;
    var zip := Field(body, "zip");
    var measure := Field(body, "measure_name");
    if !req.isJson then Failure(JsonError(400, ContentTypeMessage))
    else if Field(body, "coffee") == Some(JString("teapot")) then Failure(Teapot)
    else if !Truthy(zip) || !Truthy(measure) then Failure(JsonError(400, MissingFieldsMessage))
    else if !IsZipFormat(zip) then Failure(JsonError(400, ZipFormatMessage))
    else match measure.value
      // `in` on a set hashes its operand: a list or dict raises TypeError
      case JArray(_) => Failure(JsonError(500, UnhashableListMessage))
      case JObject(_) => Failure(JsonError(500, UnhashableDictMessage))
      case JString(m) =>
        if m in ValidMeasures then Success(Query(zip.value.s, m))
        else Failure(JsonError(400, MeasureMessage))
      case _ => Failure(JsonError(400, MeasureMessage))
  }

  /** The two-hop lookup of a validated query. It fails with "No county
      found" exactly when no row of `zip_county` has the zip. */
  function Lookup(q: Query, db: Database): (r: Response)
    ensures r.Ok? || r.JsonError?
    ensures r.JsonError? ==> r.status == 404
    ensures r == JsonError(404, NoCountyMessage(q.zip)) <==>
      forall j :: 0 <= j < |db.zipCounty| ==> db.zipCounty[j].zip != q.zip
    ensures r.Ok? ==> |r.records| > 0
  {
    match GetCountyFromZip(q.zip, db)
    case None => JsonError(404, NoCountyMessage(q.zip))
    case Some(info) =>
      var results := GetHealthData(info.county, info.state, q.measure, db);
      if |results| == 0 then
        var msg := NoDataMessage(info.county, info.state, q.measure);
        assert msg[3] != NoCountyMessage(q.zip)[3];
        JsonError(404, msg)
      else Ok(results)
  }

  /** Once the zip resolves to its first row of `zip_county`, the second hop
      uses that row's `county` and `state_abbreviation`: the response is 200
      with exactly the matching health rows, in table order and unchanged, or
      404 "No data found" when there are none. */
  lemma LookupResolved(q: Query, db: Database, i: int)
    requires FirstZipRow(db.zipCounty, q.zip, i)
    ensures var row := db.zipCounty[i];
      var r := Lookup(q, db);
      && (r.Ok? <==> exists h :: h in db.healthRankings
                                 && HealthMatches(h, row.county, row.state_abbreviation, q.measure))
      && (r.Ok? ==> r.records == GetHealthData(row.county, row.state_abbreviation, q.measure, db))
      && (!r.Ok? ==> r == JsonError(404, NoDataMessage(row.county, row.state_abbreviation, q.measure)))
  {
    var row := db.zipCounty[i];
    var info := GetCountyFromZip(q.zip, db);
    var i' :| FirstZipRow(db.zipCounty, q.zip, i') && info.value == InfoOf(db.zipCounty[i']);
    assert i == i';
    var results := GetHealthData(row.county, row.state_abbreviation, q.measure, db);
    if h :| h in db.healthRankings && HealthMatches(h, row.county, row.state_abbreviation, q.measure) {
      assert multiset(results)[h] > 0;
    }
  }

  /** The `/county_data` handler, without its HTTP plumbing. */
  function HandleCountyData(req: Request, db: Database): (r: Response)
    ensures !req.isJson ==> r == JsonError(400, ContentTypeMessage)
    ensures req.isJson && Field(req.body, "coffee") == Some(JString("teapot")) ==> r == Teapot
    ensures req.isJson && Field(req.body, "coffee") != Some(JString("teapot"))
      && (!Truthy(Field(req.body, "zip")) || !Truthy(Field(req.body, "measure_name")))
      ==> r == JsonError(400, MissingFieldsMessage)
    ensures req.isJson && Field(req.body, "coffee") != Some(JString("teapot"))
      && Truthy(Field(req.body, "zip")) && Truthy(Field(req.body, "measure_name"))
      && !IsZipFormat(Field(req.body, "zip"))
      ==> r == JsonError(400, ZipFormatMessage)
    ensures FieldsPresent(req) && IsZipFormat(Field(req.body, "zip"))
      && Field(req.body, "measure_name").value.JString?
      ==> (r == JsonError(400, MeasureMessage) <==> req.body["measure_name"].s !in ValidMeasures)
    ensures FieldsPresent(req) && IsZipFormat(Field(req.body, "zip"))
      && (req.body["measure_name"].JNumber? || req.body["measure_name"].JBool?)
      ==> r == JsonError(400, MeasureMessage)
    ensures FieldsPresent(req) && IsZipFormat(Field(req.body, "zip")) && req.body["measure_name"].JArray?
      ==> r == JsonError(500, UnhashableListMessage)
    ensures FieldsPresent(req) && IsZipFormat(Field(req.body, "zip")) && req.body["measure_name"].JObject?
      ==> r == JsonError(500, UnhashableDictMessage)
    ensures PassesChecks(req) ==> r == Lookup(Query(req.body["zip"].s, req.body["measure_name"].s), db)
    ensures Status(r) in {200, 400, 404, 418, 500}
  {
    match Validate(req)
    case Failure(resp) => resp
    case Success(q) => Lookup(q, db)
  }

  /** No data is consulted unless every check passes: a request that fails a
      check gets the same response whatever the tables hold, and only such a
      request gets a 400, 418 or 500. */
  lemma RejectionIgnoresData(req: Request, db1: Database, db2: Database)
    ensures !PassesChecks(req) ==> HandleCountyData(req, db1) == HandleCountyData(req, db2)
    ensures Status(HandleCountyData(req, db1)) in {400, 418, 500} <==> !PassesChecks(req)
  {
  }

  /** A successful response: every
      record carries the requested measure and the county and state of the
      zip's first `zip_county` row, and no matching record is missing. */
  lemma OkRecordsMatch(req: Request, db: Database, records: seq<HealthRow>)
    requires HandleCountyData(req, db) == Ok(records)
    ensures PassesChecks(req)
    ensures exists i :: (
      && FirstZipRow(db.zipCounty, req.body["zip"].s, i)
      && var row := db.zipCounty[i];
         && (forall h :: h in records ==>
               HealthMatches(h, row.county, row.state_abbreviation, req.body["measure_name"].s))
         && (forall h :: h in db.healthRankings
               && HealthMatches(h, row.county, row.state_abbreviation, req.body["measure_name"].s)
               ==> h in records))
  {
    var q := Query(req.body["zip"].s, req.body["measure_name"].s);
    var info := GetCountyFromZip(q.zip, db);
    var i :| FirstZipRow(db.zipCounty, q.zip, i) && info.value == InfoOf(db.zipCounty[i]);
    LookupResolved(q, db, i);
    var row := db.zipCounty[i];
    forall h | h in db.healthRankings && HealthMatches(h, row.county, row.state_abbreviation, q.measure)
      ensures h in records
    {
      assert multiset(records)[h] > 0;
    }
  }

  /** A one-zip, two-record database for the endpoint's test scenarios. */
  const SaltLake := ZipRow("84102", "UT", "Salt Lake County", "Salt Lake County, UT", "UT",
                           "49035", "1", "1", "1", "Salt Lake City")
  const Obesity := HealthRow("UT", "Salt Lake County", "49", "035", "2018", "Adult obesity",
                             "11", "1", "2", "0.25", "0.2", "0.3", "2020", "49035")
  const Uninsured := HealthRow("UT", "Salt Lake County", "49", "035", "2018", "Uninsured",
                               "85", "1", "2", "0.1", "0.05", "0.15", "2020", "49035")
  const SampleDb := Database([SaltLake], [Obesity, Uninsured])

  function Ask(zip: string, measure: string): Request {
    Request(true, map["zip" := JString(zip), "measure_name" := JString(measure)])
  }

  /** A known zip and measure give 200 with that county's records. */
  lemma ScenarioFound()
    ensures HandleCountyData(Ask("84102", "Adult obesity"), SampleDb) == Ok([Obesity])
  {
    var q := Query("84102", "Adult obesity");
    assert Validate(Ask("84102", "Adult obesity")) == Success(q);
    assert FirstZipRow(SampleDb.zipCounty, "84102", 0);
    LookupResolved(q, SampleDb, 0);
    assert [Obesity, Uninsured] == [Obesity] + [Uninsured];
    assert GetHealthData("Salt Lake County", "UT", "Adult obesity", SampleDb) == [Obesity];
  }

  /** An unknown zip gives 404 naming the zip. */
  lemma ScenarioUnknownZip()
    ensures HandleCountyData(Ask("00000", "Adult obesity"), SampleDb)
      == JsonError(404, "No county found for zip code 00000")
  {
    assert Validate(Ask("00000", "Adult obesity")) == Success(Query("00000", "Adult obesity"));
  }

  /** A well-formed zip with an unlisted measure gives 400 whatever the
      tables hold. */
  lemma UnlistedMeasure(zip: string, m: string, db: Database)
    requires |zip| == 5 && Text.IsDigits(zip) && |m| > 0 && m !in ValidMeasures
    ensures HandleCountyData(Ask(zip, m), db) == JsonError(400, MeasureMessage)
  {
    var req := Ask(zip, m);
    assert Field(req.body, "coffee") == None;
    assert FieldsPresent(req) && IsZipFormat(Field(req.body, "zip"));
  }

  /** An unlisted measure, or a listed one in the wrong case, gives 400. */
  lemma ScenarioInvalidMeasure()
    ensures HandleCountyData(Ask("84102", "Invalid Measure"), SampleDb)
      == JsonError(400, "Invalid measure_name")
    ensures HandleCountyData(Ask("84102", "adult obesity"), SampleDb)
      == JsonError(400, "Invalid measure_name")
  {
    assert Text.IsDigits("84102");
    assert "Invalid Measure" !in ValidMeasures;
    UnlistedMeasure("84102", "Invalid Measure", SampleDb);
    assert "adult obesity" !in ValidMeasures;
    UnlistedMeasure("84102", "adult obesity", SampleDb);
  }

  /** A missing field gives 400; a non-JSON request gives 400 before anything
      else; the teapot request gives 418. */
  lemma ScenarioRejections()
    ensures HandleCountyData(Request(true, map["measure_name" := JString("Adult obesity")]), SampleDb)
      == JsonError(400, "Both zip and measure_name are required")
    ensures HandleCountyData(Request(true, map["zip" := JString("84102")]), SampleDb)
      == JsonError(400, "Both zip and measure_name are required")
    ensures HandleCountyData(Request(false, map[]), SampleDb)
      == JsonError(400, "Content-Type must be application/json")
    ensures HandleCountyData(Request(true, map["coffee" := JString("teapot")]), SampleDb) == Teapot
    ensures HandleCountyData(Ask("8410", "Adult obesity"), SampleDb)
      == JsonError(400, "Invalid zip code format")
  {
  }
}
