/**
 * The two decisions of `csv_validator/cli.py` around the pipeline: the
 * expected-column set built from the `--columns` argument, and the exit
 * status chosen from the pipeline's outcome.
 */
module Cli {
  import opened Wrappers
  import Text
  import Validator

  /** The `--columns` argument when none is given. */
  const DEFAULT_COLUMNS: string := "id,nombre,edad,ciudad"

  /** The expected columns named by a `--columns` argument: each
      comma-separated piece, stripped, when that leaves something. */
  function ExpectedColumns(arg: string): set<string> {
    set p | p in Text.Split(arg, ',') && Text.Strip(p) != "" :: Text.Strip(p)
  }

  /** Every expected column is non-empty, has no surrounding whitespace and
      holds no comma. */
  lemma ExpectedColumnsTrimmed(arg: string)
    ensures forall n :: n in ExpectedColumns(arg) ==>
              n != "" && !Text.IsSpace(n[0]) && !Text.IsSpace(n[|n| - 1]) && ',' !in n
  {
    var pieces := Text.Split(arg, ',');
    forall n | n in ExpectedColumns(arg)
      ensures n != "" && !Text.IsSpace(n[0]) && !Text.IsSpace(n[|n| - 1]) && ',' !in n
    {
      var p :| p in pieces && Text.Strip(p) == n;
      StripKeepsOut(p, ',');
    }
  }

  /** The expected columns are exactly the stripped pieces that are not
      empty. */
  lemma ExpectedColumnsExact(arg: string)
    ensures forall p :: p in Text.Split(arg, ',') && Text.Strip(p) != "" ==> Text.Strip(p) in ExpectedColumns(arg)
    ensures forall n :: n in ExpectedColumns(arg) ==> exists p :: p in Text.Split(arg, ',') && Text.Strip(p) == n
  {
  }

  /** Stripping never introduces a character. */
  lemma StripKeepsOut(s: string, c: char)
    requires c !in s
    ensures c !in Text.Strip(s)
    ensures Text.Strip(s) != "" ==> !Text.IsSpace(Text.Strip(s)[0]) && !Text.IsSpace(Text.Strip(s)[|Text.Strip(s)| - 1])
  {
    var i := Text.LeadingSpace(s);
    var r := Text.Strip(s);
    assert r == s[i..i + |r|];
  }

  /** Joining clean names with commas and parsing the result gives the
      names back. */
  lemma ExpectedColumnsOfJoin(names: seq<string>)
    requires |names| >= 1
    requires forall k :: 0 <= k < |names| ==>
               names[k] != "" && !Text.IsSpace(names[k][0]) && !Text.IsSpace(names[k][|names[k]| - 1]) && ',' !in names[k]
    ensures ExpectedColumns(Text.Join(names, ',')) == set n | n in names
  {
    Text.SplitJoin(names, ',');
    forall n | n in names ensures Text.Strip(n) == n {
      Text.StripUnchanged(n);
    }
  }

  /** The default argument names exactly the four default columns. */
  lemma DefaultColumns()
    ensures ExpectedColumns(DEFAULT_COLUMNS) == {"id", "nombre", "edad", "ciudad"}
  {
    var names := ["id", "nombre", "edad", "ciudad"];
    DefaultNamesJoin(names);
    DefaultNamesClean(names);
    ExpectedColumnsOfJoin(names);
    NamesSet(names);
  }

  // The list is a parameter, pinned by `requires`, so that the fact is stated
  // about the one value `DefaultColumns` hands on to `ExpectedColumnsOfJoin`.
  lemma NamesSet(names: seq<string>)
    requires names == ["id", "nombre", "edad", "ciudad"]
    ensures (set n | n in names) == {"id", "nombre", "edad", "ciudad"}
  {
  }

  // The list is a parameter, pinned by `requires`, so that the fact is stated
  // about the one value `DefaultColumns` hands on to `ExpectedColumnsOfJoin`.
  lemma DefaultNamesJoin(names: seq<string>)
    requires names == ["id", "nombre", "edad", "ciudad"]
    ensures Text.Join(names, ',') == DEFAULT_COLUMNS
  {
    JoinStep("edad", names[3..], "ciudad", "edad,ciudad");
    assert names[2..] == ["edad"] + names[3..];
    JoinStep("nombre", names[2..], "edad,ciudad", "nombre,edad,ciudad");
    assert names[1..] == ["nombre"] + names[2..];
    JoinStep("id", names[1..], "nombre,edad,ciudad", DEFAULT_COLUMNS);
    assert names == ["id"] + names[1..];
  }

  /** One step of joining literal names: the first name, a comma, then the
      join of the rest. */
  lemma JoinStep(first: string, rest: seq<string>, joined: string, whole: string)
    requires |rest| >= 1
    requires |rest| == 1 ==> joined == rest[0]
    requires |rest| > 1 ==> Text.Join(rest, ',') == joined
    requires whole == first + [','] + joined
    ensures Text.Join([first] + rest, ',') == whole
  {
    assert ([first] + rest)[1..] == rest;
  }

  // The list is a parameter, pinned by `requires`, so that the fact is stated
  // about the one value `DefaultColumns` hands on to `ExpectedColumnsOfJoin`.
  lemma DefaultNamesClean(names: seq<string>)
    requires names == ["id", "nombre", "edad", "ciudad"]
    ensures forall k :: 0 <= k < |names| ==>
              names[k] != "" && !Text.IsSpace(names[k][0]) && !Text.IsSpace(names[k][|names[k]| - 1]) && ',' !in names[k]
  {
  }

  /** The exit status: 2 for a hard failure, 1 when rows were rejected, 0
      otherwise. */
  function ExitCode(outcome: Result<Validator.ValidationResult, Validator.Failure>): (code: int)
    ensures code == 2 <==> outcome.Err?
    ensures code == 1 <==> outcome.Ok? && outcome.value.errors != []
    ensures code == 0 <==> outcome.Ok? && outcome.value.errors == []
  {
    if outcome.Err? then 2
    else if outcome.value.errors != [] then 1
    else 0
  }

  /** `main` once its arguments are parsed: validate the file against the
      columns named by `columns` and return the exit status. */
  function Run(path: string, file: Validator.FileView, columns: string, age: string): int {
    ExitCode(Validator.ValidateCsv(path, file, ExpectedColumns(columns), age))
  }

  /** Status 2 exactly for the hard failures: a missing file, no decoding,
      no data row, or missing columns; status 0 only with an average to
      print, status 1 never with one. */
  lemma RunOutcomes(path: string, file: Validator.FileView, columns: string, age: string)
    ensures var r := Validator.ValidateCsv(path, file, ExpectedColumns(columns), age);
            var code := Run(path, file, columns, age);
            (code == 2 <==>
               !file.present
               || Validator.ReadCsv(file.decodings, Validator.DEFAULT_ENCODINGS).Err?
               || Validator.ValidateColumns(Validator.ReadCsv(file.decodings, Validator.DEFAULT_ENCODINGS).value.0,
                                            ExpectedColumns(columns)).Some?)
            && (code == 0 ==> r.Ok? && r.value.avgAge.Some?)
            && (code == 1 ==> r.Ok? && r.value.avgAge == None)
  {
  }
}
