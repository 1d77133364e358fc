/**
 * End-to-end outcomes of the pipeline and the exit status, proved for
 * small concrete files whose header is `id,nombre,edad,ciudad` unless
 * said otherwise.
 */
module Scenarios {
  import opened Wrappers
  import Numbers
  import Text
  import opened Validator
  import Cli

  const HEADER: seq<string> := ["id", "nombre", "edad", "ciudad"]

  /** The columns the default `--columns` argument names. */
  const DEFAULT_EXPECTED: set<string> := {"id", "nombre", "edad", "ciudad"}

  /** A file that decodes only under the given encodings, always to `t`. */
  function FileUnder(encodings: set<string>, t: Table): FileView {
    FileView(true, map e | e in encodings :: t)
  }

  /** A well-sized row whose age cell is the decimal text of `n` passes,
      and its age is `n`. */
  lemma AgeCell(row: seq<string>, n: nat)
    requires |row| == 4 && row[2] == Numbers.NatToString(n)
    ensures Classify(HEADER, row, DEFAULT_AGE_COLUMN) == None
    ensures Numbers.ParseInt(AgeText(HEADER, row, DEFAULT_AGE_COLUMN)) == Some(n as int)
  {
    assert ColumnIndex(HEADER, DEFAULT_AGE_COLUMN) == Some(2);
    var d := Numbers.NatToString(n);
    Text.StripUnchanged(d);
    Numbers.NatRoundTrip(n);
  }

  const THREE_ROWS: seq<seq<string>> :=
    [["1", "Ana", "23", "Lima"], ["2", "Luis", "40", "Quito"], ["3", "Eva", "31", "Cali"]]

  lemma MeanOfThree()
    ensures Mean([23, 40, 31]) == 94.0 / 3.0
  {
    var xs := [23, 40, 31];
    assert xs[..2] == [23, 40] && [23, 40][..1] == [23] && [23][..0] == [];
    assert Sum(xs) == 94;
  }

  /** Well-sized rows whose age cells are the decimal texts of `ns` all
      pass, and their ages are `ns`. */
  lemma CellsPass(rows: seq<seq<string>>, ns: seq<nat>)
    requires |rows| == |ns|
    requires forall i :: 0 <= i < |rows| ==> |rows[i]| == 4 && rows[i][2] == Numbers.NatToString(ns[i])
    ensures RowErrors(HEADER, rows, DEFAULT_AGE_COLUMN) == []
    ensures AgesParse(HEADER, rows, DEFAULT_AGE_COLUMN)
    ensures Ages(HEADER, rows, DEFAULT_AGE_COLUMN) == ns
  {
    forall i | 0 <= i < |rows|
      ensures Classify(HEADER, rows[i], DEFAULT_AGE_COLUMN) == None
      ensures Numbers.ParseInt(AgeText(HEADER, rows[i], DEFAULT_AGE_COLUMN)) == Some(ns[i] as int)
    {
      AgeCell(rows[i], ns[i]);
    }
    RowErrorsEmpty(HEADER, rows, DEFAULT_AGE_COLUMN);
  }

  lemma ThreeRowsPass()
    ensures RowErrors(HEADER, THREE_ROWS, DEFAULT_AGE_COLUMN) == []
    ensures AgesParse(HEADER, THREE_ROWS, DEFAULT_AGE_COLUMN)
    ensures Ages(HEADER, THREE_ROWS, DEFAULT_AGE_COLUMN) == [23, 40, 31]
  {
    AgeCells();
    CellsPass(THREE_ROWS, [23, 40, 31]);
  }

  /** The age cells of the three rows are `str(23)`, `str(40)`, `str(31)`. */
  lemma AgeCells()
    ensures forall i :: 0 <= i < 3 ==> |THREE_ROWS[i]| == 4 && THREE_ROWS[i][2] == Numbers.NatToString([23, 40, 31][i])
  {
    assert Numbers.NatToString(2) == "2" && Numbers.NatToString(4) == "4" && Numbers.NatToString(3) == "3";
    assert Numbers.NatToString(23) == "23" && Numbers.NatToString(40) == "40" && Numbers.NatToString(31) == "31";
  }

  /** Three rows with ages 23, 40 and 31: no error, three rows, the mean
      94/3, read as UTF-8, exit status 0. */
  lemma ThreeValidRows()
    ensures var file := FileUnder({"utf-8", "utf-8-sig", "cp1252"}, Table(HEADER, THREE_ROWS));
            var r := ValidateCsv("people.csv", file, DEFAULT_EXPECTED, DEFAULT_AGE_COLUMN);
            r == Ok(ValidationResult(3, Some(94.0 / 3.0), [], "utf-8")) && Cli.ExitCode(r) == 0
  {
    var t := Table(HEADER, THREE_ROWS);
    var file := FileUnder({"utf-8", "utf-8-sig", "cp1252"}, t);
    ThreeRowsPass();
    MeanOfThree();
    assert ComputeSummary(HEADER, THREE_ROWS, DEFAULT_AGE_COLUMN) == (3, 94.0 / 3.0);
    ChoosesFirstDecodable(file.decodings, DEFAULT_ENCODINGS, 0);
    assert ValidateColumns(t, DEFAULT_EXPECTED) == None;
  }

  const SHORT_HEADER: seq<string> := ["id", "nombre", "edad"]

  lemma CityIsMissing()
    ensures ValidateColumns(Table(SHORT_HEADER, [["1", "Ana", "23"]]), DEFAULT_EXPECTED) == Some(MissingCols(["ciudad"]))
  {
    var missing := set c | c in DEFAULT_EXPECTED && c !in SHORT_HEADER;
    assert missing == {"ciudad"};
    var m := Ordering.Sorted(missing);
    assert |m| == 1 && m[0] in missing;
    assert m == ["ciudad"];
  }

  /** A header without `ciudad`: the schema check fails naming it, exit
      status 2. */
  lemma MissingCity()
    ensures var file := FileUnder({"utf-8"}, Table(SHORT_HEADER, [["1", "Ana", "23"]]));
            var r := ValidateCsv("people.csv", file, DEFAULT_EXPECTED, DEFAULT_AGE_COLUMN);
            r == Err(MissingCols(["ciudad"])) && Cli.ExitCode(r) == 2
  {
    var file := FileUnder({"utf-8"}, Table(SHORT_HEADER, [["1", "Ana", "23"]]));
    ChoosesFirstDecodable(file.decodings, DEFAULT_ENCODINGS, 0);
    CityIsMissing();
  }

  const BAD_ROWS: seq<seq<string>> := [["1", "Ana", "abc", "Lima"]]

  lemma BadRowRejected()
    ensures RowErrors(HEADER, BAD_ROWS, DEFAULT_AGE_COLUMN) == [RowError(1, InvalidAge("abc"))]
  {
    assert ColumnIndex(HEADER, DEFAULT_AGE_COLUMN) == Some(2);
    Text.StripUnchanged("abc");
    assert !Numbers.IsIntString("abc");
    assert BAD_ROWS[..0] == [];
  }

  /** One row whose age is `abc`: one soft error for row 1 with the text
      the source prints, no average, exit status 1. */
  lemma NonNumericAge()
    ensures var file := FileUnder({"utf-8"}, Table(HEADER, BAD_ROWS));
            var r := ValidateCsv("people.csv", file, DEFAULT_EXPECTED, DEFAULT_AGE_COLUMN);
            r == Ok(ValidationResult(1, None, [RowError(1, InvalidAge("abc"))], "utf-8"))
            && Message(DEFAULT_AGE_COLUMN, r.value.errors[0]) == "Row 1: invalid edad -> 'abc'"
            && Cli.ExitCode(r) == 1
  {
    var t := Table(HEADER, BAD_ROWS);
    var file := FileUnder({"utf-8"}, t);
    ChoosesFirstDecodable(file.decodings, DEFAULT_ENCODINGS, 0);
    BadRowRejected();
    assert ValidateColumns(t, DEFAULT_EXPECTED) == None;
    BadRowMessage();
  }

  lemma BadRowMessage()
    ensures Message(DEFAULT_AGE_COLUMN, RowError(1, InvalidAge("abc"))) == "Row 1: invalid edad -> 'abc'"
  {
    assert Numbers.NatToString(1) == "1";
  }

  /** An empty file has no data row: a hard failure, exit status 2. */
  lemma EmptyFile()
    ensures var file := FileUnder({"utf-8", "utf-8-sig", "cp1252"}, Table([], []));
            ValidateCsv("empty.csv", file, DEFAULT_EXPECTED, DEFAULT_AGE_COLUMN) == Err(NoRows)
            && Cli.ExitCode(ValidateCsv("empty.csv", file, DEFAULT_EXPECTED, DEFAULT_AGE_COLUMN)) == 2
  {
    var file := FileUnder({"utf-8", "utf-8-sig", "cp1252"}, Table([], []));
    ChoosesFirstDecodable(file.decodings, DEFAULT_ENCODINGS, 0);
  }

  /** A file readable only as Windows-1252 is read with the third
      candidate, and that is the encoding reported. */
  lemma OnlyWindows1252()
    ensures var t := Table(HEADER, [["1", "Ana", "23", "Lima"]]);
            var file := FileUnder({"cp1252"}, t);
            var r := ValidateCsv("people.csv", file, DEFAULT_EXPECTED, DEFAULT_AGE_COLUMN);
            r.Ok? && r.value.encodingUsed == "cp1252"
  {
    var t := Table(HEADER, [["1", "Ana", "23", "Lima"]]);
    var file := FileUnder({"cp1252"}, t);
    ChoosesFirstDecodable(file.decodings, DEFAULT_ENCODINGS, 2);
  }

  /** A missing file is reported as missing, whatever its contents would
      decode to. */
  lemma AbsentFile(decodings: map<string, Table>, expected: set<string>)
    ensures ValidateCsv("gone.csv", FileView(false, decodings), expected, DEFAULT_AGE_COLUMN) == Err(NotFound("gone.csv"))
  {
  }
}
