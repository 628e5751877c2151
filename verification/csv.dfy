/** Rows as Python's `csv.DictReader` presents them, over records that the
    CSV tokenizer (`csv.reader`) has already split into fields. */
module Csv {
  import opened Wrappers
  import Seqs

  /** One line of a CSV file, split into its fields. A blank line is `[]`. */
  type Record = seq<string>

  /** A `DictReader` row: each header name maps to its field, or to `None`
      (`restval`) when the line is shorter than the header; the fields beyond
      the header's width are kept in `rest` (under `restkey` `None` in Python,
      present only when non-empty). */
  datatype DictRow = DictRow(fields: map<string, Option<string>>, rest: seq<string>)

  /** What a `DictReader` yields for a file: its `fieldnames` (the first
      record, `None` for an empty file) and its rows. */
  datatype DictFile = DictFile(fieldnames: Option<Record>, rows: seq<DictRow>)

  ghost predicate Distinct(s: seq<string>) {
    forall i, j :: 0 <= i < j < |s| ==> s[i] != s[j]
  }

  /** `dict(zip(names, values))`: pairs up to the shorter sequence, and a
      repeated name keeps its later value. */
  function ZipFields(names: seq<string>, values: seq<string>): (m: map<string, Option<string>>)
    ensures m.Keys == set i | 0 <= i < |names| && i < |values| :: names[i]
  {
    if |names| == 0 || |values| == 0 then map[]
    else map[names[0] := Some(values[0])] + ZipFields(names[1..], values[1..])
  }

  lemma {:induction false} ZipFieldsAt(names: seq<string>, values: seq<string>, i: nat)
    requires Distinct(names) && i < |names| && i < |values|
    ensures ZipFields(names, values)[names[i]] == Some(values[i])
  {
    if i > 0 {
      ZipFieldsAt(names[1..], values[1..], i - 1);
    } else {
      var tail := ZipFields(names[1..], values[1..]);
      assert names[0] !in tail;
    }
  }

  /** The row `DictReader.__next__` builds from a non-blank line. */
  function MakeRow(header: Record, values: Record): (r: DictRow)
    ensures r.fields.Keys == set i | 0 <= i < |header| :: header[i]
    ensures r.rest == if |values| > |header| then values[|header|..] else []
    ensures Distinct(header) ==> forall i :: 0 <= i < |header| ==>
      r.fields[header[i]] == if i < |values| then Some(values[i]) else None
  {
    var d := ZipFields(header, values);
    if |header| < |values| then
      forall i | 0 <= i < |header| && Distinct(header)
        ensures d[header[i]] == Some(values[i])
      {
        ZipFieldsAt(header, values, i);
      }
      DictRow(d, values[|header|..])
    else
      var missing := header[|values|..];
      var r := DictRow(d + map n | n in missing :: None, []);
      assert forall i :: |values| <= i < |header| ==> header[i] in missing;
      forall i | 0 <= i < |header| && i < |values| && Distinct(header)
        ensures r.fields[header[i]] == Some(values[i])
      {
        ZipFieldsAt(header, values, i);
        assert header[i] !in missing;
      }
      r
  }

  /** A line with at least one field; `DictReader` skips the others. */
  predicate NonBlank(l: Record) {
    |l| > 0
  }

  /** The rows of a file with header `header` and data lines `data`: one per
      non-blank line, in file order. */
  function ReadRows(header: Record, data: seq<Record>): (rows: seq<DictRow>)
    ensures |rows| <= |data|
    ensures (forall i :: 0 <= i < |data| ==> NonBlank(data[i])) ==>
      |rows| == |data| && forall i :: 0 <= i < |data| ==> rows[i] == MakeRow(header, data[i])
  {
    Seqs.FilterMap(NonBlank, (l: Record) => MakeRow(header, l), data)
  }

  /** Every row comes from a non-blank line of the file. */
  lemma ReadRowsFrom(header: Record, data: seq<Record>, k: nat)
    requires k < |ReadRows(header, data)|
    ensures exists i :: 0 <= i < |data| && NonBlank(data[i]) && ReadRows(header, data)[k] == MakeRow(header, data[i])
  {
    Seqs.FilterMapFrom(NonBlank, (l: Record) => MakeRow(header, l), data, k);
  }

  /** Reading two runs of lines one after the other gives their rows one
      after the other. */
  lemma ReadRowsConcat(header: Record, a: seq<Record>, b: seq<Record>)
    ensures ReadRows(header, a + b) == ReadRows(header, a) + ReadRows(header, b)
  {
    Seqs.FilterMapConcat(NonBlank, (l: Record) => MakeRow(header, l), a, b);
  }

  /** A `DictReader` over the records of a whole file: the first record is
      the header, and every later non-blank record gives one row, in file
      order. */
  function DictReader(records: seq<Record>): (f: DictFile)
    ensures |records| == 0 <==> f.fieldnames == None
    ensures |records| > 0 ==> f.fieldnames == Some(records[0])
    ensures |records| == 0 ==> f.rows == []
    ensures |records| > 0 ==> |f.rows| <= |records| - 1
    ensures |records| > 0 && (forall i :: 1 <= i < |records| ==> NonBlank(records[i])) ==>
      |f.rows| == |records| - 1
      && forall k :: 0 <= k < |f.rows| ==> f.rows[k] == MakeRow(records[0], records[k + 1])
  {
    if |records| == 0 then DictFile(None, [])
    else
      var data := records[1..];
      assert forall i :: 0 <= i < |data| ==> data[i] == records[i + 1];
      DictFile(Some(records[0]), ReadRows(records[0], data))
  }

  /** A blank line yields no row and does not disturb the others. */
  lemma DictReaderSkipsBlank(header: Record, a: seq<Record>, b: seq<Record>)
    ensures DictReader([header] + a + [[]] + b).rows == DictReader([header] + a + b).rows
  {
    var f1, f2 := [header] + a + [[]] + b, [header] + a + b;
    assert f1[1..] == a + [[]] + b;
    assert f2[1..] == a + b;
    ReadRowsSkipsBlank(header, a, b);
  }

  lemma ReadRowsSkipsBlank(header: Record, a: seq<Record>, b: seq<Record>)
    ensures ReadRows(header, a + [[]] + b) == ReadRows(header, a + b)
  {
    ReadRowsConcat(header, a + [[]], b);
    ReadRowsConcat(header, a, [[]]);
    ReadRowsConcat(header, a, b);
    assert ReadRows(header, [[]]) == [];
  }

  /** What reading a field of a row can raise. */
  datatype RowError =
    | KeyError(name: string)      // the header has no such column
    | NoneField(name: string)     // the line was short: the field is `None`
    | ExtraFields                 // `DictWriter.writerow` of a row with overflow fields

  /** Python's `row[name]`: a missing name raises `KeyError`. */
  function Get(row: DictRow, name: string): (r: Result<Option<string>, RowError>)
    ensures r.Success? <==> name in row.fields
    ensures r.Success? ==> r.value == row.fields[name]
  {
    if name in row.fields then Success(row.fields[name]) else Failure(KeyError(name))
  }

  /** `row[name]` used as a string (by `.strip()`): `None` fails too. */
  function GetString(row: DictRow, name: string): (r: Result<string, RowError>)
    ensures r.Success? <==> name in row.fields && row.fields[name].Some?
    ensures r.Success? ==> row.fields[name] == Some(r.value)
  {
    if name !in row.fields then Failure(KeyError(name))
    else if row.fields[name].None? then Failure(NoneField(name))
    else Success(row.fields[name].value)
  }
}
