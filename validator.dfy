/**
 * The validation pipeline of `csv_validator/validator.py`: existence check,
 * encoding fallback, schema check, row validation, summary, and the
 * orchestration that assembles a `ValidationResult`.
 */
module Validator {
  import opened Wrappers
  import Text
  import Numbers
  import Ordering

  /** The candidate encodings, in the order they are tried. */
  const DEFAULT_ENCODINGS: seq<string> := ["utf-8", "utf-8-sig", "cp1252"]

  /** The age column used when the caller names none. */
  const DEFAULT_AGE_COLUMN: string := "edad"

  /** What the CSV reader yields for a decoded file: the header names and,
      for every data row, its raw field values in order. */
  datatype Table = Table(header: seq<string>, rows: seq<seq<string>>)

  /** What the pipeline can observe of the file at a path: whether it
      exists, and every encoding under which its whole contents decode,
      mapped to the table read from the text so decoded. */
  datatype FileView = FileView(present: bool, decodings: map<string, Table>)

  /** The hard failures; in the source these are raised exceptions. */
  datatype Failure =
    | NotFound(path: string)
      /** No candidate decoded the file; `cause` is the encoding whose
          decoding error is chained as the cause (the last one tried). */
    | DecodeFail(tried: seq<string>, cause: Option<string>)
    | NoRows
    | MissingCols(missing: seq<string>)

  /** Why a row is rejected. */
  datatype Issue =
    | Overflow(extras: seq<string>)
    | Missing
    | InvalidAge(value: string)

  /** A row-level error; rows are numbered from 1. */
  datatype RowError = RowError(index: nat, issue: Issue)

  datatype ValidationResult = ValidationResult(
    totalRows: nat,
    avgAge: Option<real>,
    errors: seq<RowError>,
    encodingUsed: string)

  // ---------------------------------------------------------------------
  // Existence check

  /** `validate_file_exists`: a missing path is a failure naming it. */
  function ValidateFileExists(path: string, file: FileView): (r: Option<Failure>)
    ensures r == None <==> file.present
    ensures r.Some? ==> r.value == NotFound(path)
  {
    if file.present then None else Some(NotFound(path))
  }

  // ---------------------------------------------------------------------
  // Decoding reader

  /** Index of the first candidate that decodes the file, or the number of
      candidates when none does. */
  function FirstDecodable(decodings: map<string, Table>, encodings: seq<string>): (k: nat)
    ensures k <= |encodings|
    ensures forall j :: 0 <= j < k ==> encodings[j] !in decodings
    ensures k < |encodings| ==> encodings[k] in decodings
  {
    if |encodings| == 0 || encodings[0] in decodings then 0
    else 1 + FirstDecodable(decodings, encodings[1..])
  }

  /** What reading the file yields: the table and the name of the first
      candidate encoding that decodes it, or a decoding failure naming all
      candidates. */
  function ReadCsv(decodings: map<string, Table>, encodings: seq<string>): (r: Result<(Table, string), Failure>)
    ensures r.Err? <==> forall j :: 0 <= j < |encodings| ==> encodings[j] !in decodings
    ensures r.Ok? ==> var k := FirstDecodable(decodings, encodings);
                      k < |encodings| && r.value.1 == encodings[k] && r.value.0 == decodings[encodings[k]]
    ensures r.Err? ==> r.error == DecodeFail(encodings, if |encodings| == 0 then None else Some(encodings[|encodings| - 1]))
  {
    var k := FirstDecodable(decodings, encodings);
    if k < |encodings| then Ok((decodings[encodings[k]], encodings[k]))
    else Err(DecodeFail(encodings, if |encodings| == 0 then None else Some(encodings[|encodings| - 1])))
  }

  /** `read_csv_rows`: try each encoding in turn, returning on the first one
      that decodes and remembering the last decoding error otherwise. */
  method ReadCsvRows(decodings: map<string, Table>, encodings: seq<string>) returns (r: Result<(Table, string), Failure>)
    ensures r == ReadCsv(decodings, encodings)
  {
    var lastError: Option<string> := None;
    var i := 0;
    while i < |encodings|
      invariant 0 <= i <= |encodings|
      invariant forall j :: 0 <= j < i ==> encodings[j] !in decodings
      invariant lastError == if i == 0 then None else Some(encodings[i - 1])
    {
      var enc := encodings[i];
      if enc in decodings {
        return Ok((decodings[enc], enc));
      }
      lastError := Some(enc);
      i := i + 1;
    }
    return Err(DecodeFail(encodings, lastError));
  }

  /** A candidate that decodes the file is chosen whenever no earlier one
      does, whatever the later ones do. */
  lemma ChoosesFirstDecodable(decodings: map<string, Table>, encodings: seq<string>, k: nat)
    requires k < |encodings| && encodings[k] in decodings
    requires forall j :: 0 <= j < k ==> encodings[j] !in decodings
    ensures ReadCsv(decodings, encodings) == Ok((decodings[encodings[k]], encodings[k]))
  {
  }

  /** Any file contents that decode as UTF-8 with an optional byte-order
      mark also decode as plain UTF-8 (the mark is then kept as U+FEFF), so
      under the default order the second candidate is never chosen. */
  lemma SignatureVariantNeverChosen(decodings: map<string, Table>)
    requires "utf-8-sig" in decodings ==> "utf-8" in decodings
    ensures ReadCsv(decodings, DEFAULT_ENCODINGS).Ok? ==> ReadCsv(decodings, DEFAULT_ENCODINGS).value.1 != "utf-8-sig"
  {
  }

  // ---------------------------------------------------------------------
  // Schema check

  /** `validate_columns`: no data row is a failure before anything else;
      otherwise the required names absent from the header, if any, are
      reported in ascending order. */
  function ValidateColumns(t: Table, expected: set<string>): (r: Option<Failure>)
    ensures t.rows == [] ==> r == Some(NoRows)
    ensures r == None <==> t.rows != [] && forall c :: c in expected ==> c in t.header
    ensures r.Some? && t.rows != [] ==>
              r.value.MissingCols?
              && Ordering.StrictlyAscending(r.value.missing)
              && forall c :: c in r.value.missing <==> c in expected && c !in t.header
  {
    if t.rows == [] then Some(NoRows)
    else
      var missing := set c | c in expected && c !in t.header;
      if missing != {} then Some(MissingCols(Ordering.Sorted(missing)))
      else
        assert forall c :: c in expected ==> c in missing || c in t.header;
        None
  }

  // ---------------------------------------------------------------------
  // Row validation

  /** Where a row's value for column `name` sits: the last header position
      holding that name, since a later value under a repeated key replaces
      an earlier one. */
  function ColumnIndex(header: seq<string>, name: string): (k: Option<nat>)
    ensures k.None? <==> name !in header
    ensures k.Some? ==> k.value < |header| && header[k.value] == name
                        && forall j :: k.value < j < |header| ==> header[j] != name
  {
    if |header| == 0 then None
    else if header[|header| - 1] == name then Some(|header| - 1)
    else ColumnIndex(header[..|header| - 1], name)
  }

  /** The row's value for the age column, the empty string standing for an
      absent column or a missing value. */
  function AgeField(header: seq<string>, fields: seq<string>, age: string): string {
    match ColumnIndex(header, age)
    case None => ""
    case Some(k) => if k < |fields| then fields[k] else ""
  }

  /** The age value as it is checked and parsed: stripped of whitespace. */
  function AgeText(header: seq<string>, fields: seq<string>, age: string): string {
    Text.Strip(AgeField(header, fields, age))
  }

  /** The one issue of a row, first match wins: too many fields, then too
      few, then an age that is not an integer string. */
  function Classify(header: seq<string>, fields: seq<string>, age: string): (issue: Option<Issue>)
    ensures |fields| > |header| ==> issue.Some? && issue.value.Overflow?
    ensures |fields| < |header| ==> issue == Some(Missing)
    ensures |fields| == |header| ==> (issue == None <==> Numbers.ParseInt(AgeText(header, fields, age)).Some?)
    ensures issue.Some? && issue.value.Overflow? ==>
              |issue.value.extras| > 0 && fields == fields[..|header|] + issue.value.extras
    ensures |fields| == |header| && Numbers.ParseInt(AgeText(header, fields, age)).None? ==>
              issue == Some(InvalidAge(AgeText(header, fields, age)))
    ensures |fields| == |header| && AgeText(header, fields, age) == "" ==> issue == Some(InvalidAge(""))
    ensures issue.Some? && issue.value.InvalidAge? ==>
              |fields| == |header| && issue.value.value == AgeText(header, fields, age)
              && Text.Strip(issue.value.value) == issue.value.value
              && Numbers.ParseInt(issue.value.value) == None
  {
    if |fields| > |header| then Some(Overflow(fields[|header|..]))
    else if |fields| < |header| then Some(Missing)
    else
      var value := AgeText(header, fields, age);
      Text.StripIdempotent(AgeField(header, fields, age));
      if Numbers.IsIntString(value) then None else Some(InvalidAge(value))
  }

  /** A row of the wrong width is judged by its width alone: its age value,
      whichever column it comes from, plays no part. */
  lemma WidthDecidesFirst(header: seq<string>, fields: seq<string>, age1: string, age2: string)
    requires |fields| != |header|
    ensures Classify(header, fields, age1) == Classify(header, fields, age2)
  {
  }

  function ErrorsFor(index: nat, issue: Option<Issue>): seq<RowError> {
    match issue
    case None => []
    case Some(i) => [RowError(index, i)]
  }

  /** The errors of the rows in order: each row, numbered from 1, adds its
      issue if it has one. */
  function RowErrors(header: seq<string>, rows: seq<seq<string>>, age: string): seq<RowError>
    decreases |rows|
  {
    if rows == [] then []
    else RowErrors(header, rows[..|rows| - 1], age)
         + ErrorsFor(|rows|, Classify(header, rows[|rows| - 1], age))
  }

  /** `validate_rows`: walk the rows in order and append one error for each
      rejected row. */
  method ValidateRows(header: seq<string>, rows: seq<seq<string>>, age: string) returns (errors: seq<RowError>)
    ensures errors == RowErrors(header, rows, age)
  {
    errors := [];
    var i := 0;
    while i < |rows|
      invariant 0 <= i <= |rows|
      invariant errors == RowErrors(header, rows[..i], age)
    {
      var row := rows[i];
      i := i + 1;
      assert rows[..i][..i - 1] == rows[..i - 1];
      if |row| > |header| {
        errors := errors + [RowError(i, Overflow(row[|header|..]))];
        continue;
      }
      if |row| < |header| {
        errors := errors + [RowError(i, Missing)];
        continue;
      }
      var value := Text.Strip(AgeField(header, row, age));
      if !Numbers.IsIntString(value) {
        errors := errors + [RowError(i, InvalidAge(value))];
      }
    }
    assert rows[..i] == rows;
  }

  /** Every reported error is the issue of the row it names, and rows are
      numbered from 1 to the number of rows. */
  lemma {:induction false} RowErrorsSound(header: seq<string>, rows: seq<seq<string>>, age: string)
    ensures forall e :: e in RowErrors(header, rows, age) ==>
              1 <= e.index <= |rows| && Classify(header, rows[e.index - 1], age) == Some(e.issue)
    decreases |rows|
  {
    if rows != [] {
      var init := rows[..|rows| - 1];
      var last := ErrorsFor(|rows|, Classify(header, rows[|rows| - 1], age));
      RowErrorsSound(header, init, age);
      assert RowErrors(header, rows, age) == RowErrors(header, init, age) + last;
      forall e | e in RowErrors(header, rows, age)
        ensures 1 <= e.index <= |rows| && Classify(header, rows[e.index - 1], age) == Some(e.issue)
      {
        if e in RowErrors(header, init, age) {
          assert rows[e.index - 1] == init[e.index - 1];
        } else {
          assert e in last;
        }
      }
    }
  }

  /** Every rejected row is reported, under its own number. */
  lemma {:induction false} RowErrorsComplete(header: seq<string>, rows: seq<seq<string>>, age: string, i: nat)
    requires 1 <= i <= |rows|
    requires Classify(header, rows[i - 1], age).Some?
    ensures RowError(i, Classify(header, rows[i - 1], age).value) in RowErrors(header, rows, age)
    decreases |rows|
  {
    if i < |rows| {
      var init := rows[..|rows| - 1];
      assert init[i - 1] == rows[i - 1];
      RowErrorsComplete(header, init, age, i);
    }
  }

  /** Errors come in strictly increasing row order, so no row yields two,
      and there are never more errors than rows. */
  lemma {:induction false} RowErrorsOrdered(header: seq<string>, rows: seq<seq<string>>, age: string)
    ensures var errs := RowErrors(header, rows, age);
            |errs| <= |rows|
            && forall a, b :: 0 <= a < b < |errs| ==> errs[a].index < errs[b].index
    decreases |rows|
  {
    if rows != [] {
      var init := rows[..|rows| - 1];
      RowErrorsOrdered(header, init, age);
      RowErrorsIndexBound(header, init, age);
      var prev := RowErrors(header, init, age);
      forall a | 0 <= a < |prev| ensures prev[a].index < |rows| {
        assert prev[a] in prev;
      }
    }
  }

  /** Every error names a row from 1 to the number of rows. */
  lemma {:induction false} RowErrorsIndexBound(header: seq<string>, rows: seq<seq<string>>, age: string)
    ensures forall e :: e in RowErrors(header, rows, age) ==> 1 <= e.index <= |rows|
    decreases |rows|
  {
    if rows != [] {
      RowErrorsIndexBound(header, rows[..|rows| - 1], age);
    }
  }

  /** No error at all exactly when every row passes. */
  lemma RowErrorsEmpty(header: seq<string>, rows: seq<seq<string>>, age: string)
    ensures RowErrors(header, rows, age) == [] <==>
              forall i :: 0 <= i < |rows| ==> Classify(header, rows[i], age) == None
  {
    if RowErrors(header, rows, age) == [] {
      NoErrorsAllPass(header, rows, age);
    } else {
      var e := RowErrors(header, rows, age)[0];
      RowErrorsSound(header, rows, age);
      assert e in RowErrors(header, rows, age);
      var i := e.index - 1;
      assert Classify(header, rows[i], age) == Some(e.issue);
    }
  }

  lemma NoErrorsAllPass(header: seq<string>, rows: seq<seq<string>>, age: string)
    requires RowErrors(header, rows, age) == []
    ensures forall i :: 0 <= i < |rows| ==> Classify(header, rows[i], age) == None
  {
    forall i | 0 <= i < |rows| ensures Classify(header, rows[i], age) == None {
      var c := Classify(header, rows[i], age);
      if c.Some? {
        RowErrorsComplete(header, rows, age, i + 1);
        assert false;
      }
    }
  }

  // ---------------------------------------------------------------------
  // Error messages

  /** `repr` of a string, shown in single quotes; escaping is not modelled. */
  function Quoted(s: string): string {
    "'" + s + "'"
  }

  /** `repr` of a list of strings. */
  function ListRepr(xs: seq<string>): string {
    "[" + QuotedItems(xs) + "]"
  }

  function QuotedItems(xs: seq<string>): string {
    if |xs| == 0 then ""
    else if |xs| == 1 then Quoted(xs[0])
    else Quoted(xs[0]) + ", " + QuotedItems(xs[1..])
  }

  function Reason(age: string, issue: Issue): string {
    match issue
    case Overflow(extras) => "Too many columns (extra data: " + ListRepr(extras) + ")"
    case Missing => "Missing columns"
    case InvalidAge(value) => "invalid " + age + " -> " + Quoted(value)
  }

  /** The text of a row error, as the source formats it. */
  function Message(age: string, e: RowError): string {
    "Row " + Numbers.NatToString(e.index) + ": " + Reason(age, e.issue)
  }

  /** A message opens with "Row ", then the row number in decimal, then a
      colon: the row can be read back from the text. */
  lemma MessageNamesRow(age: string, e: RowError)
    ensures var m := Message(age, e);
            var d := Numbers.NatToString(e.index);
            |m| > 4 + |d| && m[..4] == "Row " && m[4 + |d|] == ':'
            && Numbers.ParseInt(m[4..4 + |d|]) == Some(e.index as int)
  {
    var d := Numbers.NatToString(e.index);
    var m := Message(age, e);
    assert m == "Row " + d + ": " + Reason(age, e.issue);
    assert m[4..4 + |d|] == d;
    Numbers.NatRoundTrip(e.index);
  }

  /** Errors of different rows never share a message. */
  lemma MessagesDistinguishRows(age: string, e1: RowError, e2: RowError)
    requires e1.index != e2.index
    ensures Message(age, e1) != Message(age, e2)
  {
    var d1 := Numbers.NatToString(e1.index);
    var d2 := Numbers.NatToString(e2.index);
    var m1 := Message(age, e1);
    var m2 := Message(age, e2);
    MessageNamesRow(age, e1);
    MessageNamesRow(age, e2);
    if |d1| == |d2| {
      assert m1[4..4 + |d1|] != m2[4..4 + |d2|];
    } else if |d1| < |d2| {
      assert m2 == "Row " + d2 + ": " + Reason(age, e2.issue);
      assert m2[4 + |d1|] == d2[|d1|];
      assert m1[4 + |d1|] != m2[4 + |d1|];
    } else {
      assert m1 == "Row " + d1 + ": " + Reason(age, e1.issue);
      assert m1[4 + |d2|] == d1[|d2|];
      assert m1[4 + |d2|] != m2[4 + |d2|];
    }
  }

  // ---------------------------------------------------------------------
  // Summary

  /** Every row's stripped age value is an integer string. */
  predicate AgesParse(header: seq<string>, rows: seq<seq<string>>, age: string) {
    forall i :: 0 <= i < |rows| ==> Numbers.IsIntString(AgeText(header, rows[i], age))
  }

  /** The parsed ages, row by row. */
  function Ages(header: seq<string>, rows: seq<seq<string>>, age: string): (ages: seq<int>)
    requires AgesParse(header, rows, age)
    ensures |ages| == |rows|
    ensures forall i :: 0 <= i < |rows| ==> Numbers.ParseInt(AgeText(header, rows[i], age)) == Some(ages[i])
  {
    seq(|rows|, i requires 0 <= i < |rows| => Numbers.ParseInt(AgeText(header, rows[i], age)).value)
  }

  function Sum(xs: seq<int>): int {
    if xs == [] then 0 else Sum(xs[..|xs| - 1]) + xs[|xs| - 1]
  }

  /** `compute_summary`: the number of rows and the exact mean of their
      parsed ages. */
  function ComputeSummary(header: seq<string>, rows: seq<seq<string>>, age: string): (r: (nat, real))
    requires |rows| > 0
    requires AgesParse(header, rows, age)
    ensures r.0 == |rows|
    ensures r.1 == Mean(Ages(header, rows, age))
  {
    var ages := Ages(header, rows, age);
    (|ages|, Mean(ages))
  }

  /** `sum(xs) / len(xs)`, computed exactly: the number whose product with
      the count is the sum. */
  function Mean(xs: seq<int>): (m: real)
    requires |xs| > 0
    ensures m * (|xs| as real) == Sum(xs) as real
  {
    Sum(xs) as real / |xs| as real
  }

  lemma {:induction false} SumBounds(xs: seq<int>, lo: int, hi: int)
    requires forall i :: 0 <= i < |xs| ==> lo <= xs[i] <= hi
    ensures |xs| * lo <= Sum(xs) <= |xs| * hi
  {
    if xs != [] {
      var init := xs[..|xs| - 1];
      SumBounds(init, lo, hi);
      assert |xs| * lo == |init| * lo + lo;
      assert |xs| * hi == |init| * hi + hi;
    }
  }

  /** The mean lies between the smallest and the largest value. */
  lemma MeanWithinBounds(xs: seq<int>, lo: int, hi: int)
    requires |xs| > 0
    requires forall i :: 0 <= i < |xs| ==> lo <= xs[i] <= hi
    ensures lo as real <= Mean(xs) <= hi as real
  {
    SumBounds(xs, lo, hi);
    QuotientBounds(Mean(xs), |xs|, Sum(xs), lo, hi);
  }

  lemma QuotientBounds(m: real, n: nat, sum: int, lo: int, hi: int)
    requires n > 0 && m * (n as real) == sum as real
    requires n * lo <= sum <= n * hi
    ensures lo as real <= m <= hi as real
  {
    assert (n * lo) as real == (n as real) * (lo as real);
    assert (n * hi) as real == (n as real) * (hi as real);
    CancelPositive(m, lo as real, n as real);
    CancelPositive(hi as real, m, n as real);
  }

  lemma CancelPositive(a: real, b: real, n: real)
    requires n > 0.0 && a * n >= b * n
    ensures a >= b
  {
    assert (a - b) * n >= 0.0;
  }

  /** When the schema check passed and no row was rejected, the summary's
      preconditions hold: there is a row, and every age parses. */
  lemma CleanRowsHaveSummary(t: Table, expected: set<string>, age: string)
    requires ValidateColumns(t, expected) == None
    requires RowErrors(t.header, t.rows, age) == []
    ensures |t.rows| > 0
    ensures AgesParse(t.header, t.rows, age)
    ensures forall i :: 0 <= i < |t.rows| ==> |t.rows[i]| == |t.header|
  {
    RowErrorsEmpty(t.header, t.rows, age);
  }

  // ---------------------------------------------------------------------
  // Orchestration

  /** `validate_csv`: existence check, reading, schema check, row
      validation, and the summary only when no row was rejected. */
  function ValidateCsv(path: string, file: FileView, expected: set<string>, age: string): (r: Result<ValidationResult, Failure>)
    ensures !file.present ==> r == Err(NotFound(path))
    ensures r.Err? && r.error.NotFound? ==> !file.present
    ensures r.Err? && r.error.DecodeFail? <==>
              file.present && forall j :: 0 <= j < |DEFAULT_ENCODINGS| ==> DEFAULT_ENCODINGS[j] !in file.decodings
    ensures r.Ok? ==>
              var v := r.value;
              v.encodingUsed in file.decodings
              && ReadCsv(file.decodings, DEFAULT_ENCODINGS) == Ok((file.decodings[v.encodingUsed], v.encodingUsed))
              && var t := file.decodings[v.encodingUsed];
              ValidateColumns(t, expected) == None
              && v.totalRows == |t.rows|
              && v.errors == RowErrors(t.header, t.rows, age)
              && (v.avgAge.Some? <==> v.errors == [])
              && (v.avgAge.Some? ==> |t.rows| > 0 && AgesParse(t.header, t.rows, age)
                                     && v.avgAge.value == Mean(Ages(t.header, t.rows, age)))
  {
    match ValidateFileExists(path, file)
    case Some(e) => Err(e)
    case None =>
      match ReadCsv(file.decodings, DEFAULT_ENCODINGS)
      case Err(e) => Err(e)
      case Ok((t, enc)) =>
        match ValidateColumns(t, expected)
        case Some(e) => Err(e)
        case None =>
          var errors := RowErrors(t.header, t.rows, age);
          if errors != [] then
            Ok(ValidationResult(|t.rows|, None, errors, enc))
          else
            CleanRowsHaveSummary(t, expected, age);
            var (total, avg) := ComputeSummary(t.header, t.rows, age);
            Ok(ValidationResult(total, Some(avg), [], enc))
  }

  /** A file that exists and decodes under some candidate fails only the
      schema check, with no row, or with the required names it lacks. */
  lemma SchemaFailures(path: string, file: FileView, expected: set<string>, age: string)
    requires file.present
    requires ReadCsv(file.decodings, DEFAULT_ENCODINGS).Ok?
    ensures var t := ReadCsv(file.decodings, DEFAULT_ENCODINGS).value.0;
            var r := ValidateCsv(path, file, expected, age);
            (r == Err(NoRows) <==> t.rows == [])
            && (r.Err? ==> r == Err(NoRows) || (r.error.MissingCols? && ValidateColumns(t, expected) == Some(r.error)))
  {
  }
}
