# csv-validator, modelled in Dafny

This project models the validation pipeline of the `csv-validator` command-line tool and the two decisions its command-line entry point makes around that pipeline. The pipeline, `validate_csv`, runs these stages in order:

1. It checks that the file exists.
2. It reads the file as comma-separated text. It tries the encodings `utf-8`, `utf-8-sig` and `cp1252` in that order and keeps the first one that decodes the whole file.
3. It checks that the header contains every required column.
4. It validates every data row.
5. When no row was rejected, it computes the row count and the mean of the age column.

The entry point turns the `--columns` argument into the set of required columns. It maps the pipeline's outcome to exit status 0, 1 or 2.

Modules, one per concern:

- `Wrappers` (`wrappers.dfy`): `Option` and `Result`.
- `Text` (`text.dfy`): `str.strip()` on ASCII whitespace; `str.split(sep)` and its inverse, joining.
- `Numbers` (`numbers.dfy`): the base-10 strings `int()` accepts, their value, and `str(n)` for row numbers.
- `Ordering` (`ordering.dfy`): Python's string order and `sorted()` of a set of strings.
- `Validator` (`validator.dfy`): `csv_validator/validator.py`.
- `Cli` (`cli.dfy`): line 31 and lines 33-50 of `csv_validator/cli.py`.
- `Scenarios` (`scenarios.dfy`): end-to-end outcomes of the pipeline, proved for small concrete files.

How the model represents the source:

- **The file.** A file is a `FileView`. It says whether the path exists. It maps each encoding under which the file's whole contents decode to the `Table` the CSV reader produces from that text. So "decodes under `e`" means exactly that `e` is a key of the map.
- **A table.** A `Table` is the header names plus, for each data row, its raw fields in order. A row with more fields than header names overflows. A row with fewer fields underflows. The reader uses a `None` key for extra values and fills missing fields with `None`; comparing lengths captures exactly that convention.
- **Looking up the age.** The age value is read from the last header position with that name. A dictionary built from the row keeps the last value written under a repeated key. An absent column, or a position beyond the row, gives the empty string, just as `row.get(age) or ""` does.
- **Loops.** `validate_rows` loops and appends to `errors` in place; `read_csv_rows` loops over the encodings and returns early. Both are methods with loop invariants: `ReadCsvRows` and `ValidateRows`. Each is proved equal to a specification function, `ReadCsv` and `RowErrors`. `ValidateCsv` is a straight-line function, so it is written with those specification functions.
- **Hard failures.** The source raises exceptions. The model returns `Failure` variants instead: `NotFound`, `DecodeFail`, `NoRows` and `MissingCols`.
- **Row errors.** Row errors are structured `RowError(index, issue)` values. `Message` renders them as the source's f-strings.
- **The mean.** The mean is an exact `real`. `Mean` states that the mean times the count equals the sum of the ages.
- **Determinism.** Every stage is a function, so running the pipeline twice on the same file gives the same result by construction.

A consequence the lemmas make visible: `SignatureVariantNeverChosen` assumes the codec fact that any file contents that decode as `utf-8-sig` also decode as `utf-8`. Under that fact, the second candidate is never chosen. A file that starts with a byte-order mark is read as `utf-8`, and the mark stays at the front of the first header name. This is stated as a property of the model, not claimed as a defect; the codec behaviour itself is outside the model.

Two details of the code that the model keeps:

- The invalid-age message shows the stripped value (validator.py:65, 69), and so does `Classify`.
- `compute_summary` divides by `len(rows)` (validator.py:78), so zero rows would raise `ZeroDivisionError`. `ComputeSummary` requires a row, and `CleanRowsHaveSummary` proves that `ValidateCsv` always supplies one.

## Model

| member | source | states |
|---|---|---|
| `Text.Strip` | csv_validator/validator.py:65 | the result is a slice of the input with no whitespace at either end; everything cut off is whitespace; it is empty exactly when the input is all whitespace |
| `Text.StripIdempotent` | csv_validator/validator.py:65-69 | stripping twice equals stripping once, so the value kept in an invalid-age error is already stripped |
| `Text.Split` | csv_validator/cli.py:31 | there is at least one piece; no piece contains the separator; joining the pieces with the separator gives the input back |
| `Text.SplitJoin` | csv_validator/cli.py:31 | splitting a join of separator-free pieces gives those pieces back |
| `Numbers.ParseInt` | csv_validator/validator.py:66-67 | `int()` succeeds exactly on strings of the grammar (optional sign, digits, single underscores between digits), with no limit on the number of digits; the empty string fails |
| `Numbers.NatToString` | csv_validator/validator.py:56 | the row number's text is a non-empty run of digits with no leading zero |
| `Numbers.NatRoundTrip` | csv_validator/validator.py:67 | `int()` of a number's decimal text, unsigned, with `+` or with `-`, is that number, or its negation with `-` |
| `Ordering.BelowTotal` | csv_validator/validator.py:47 | two different strings are ordered one way or the other |
| `Ordering.BelowTransitive` | csv_validator/validator.py:47 | string order is transitive |
| `Ordering.Sorted` | csv_validator/validator.py:47 | `sorted()` of a set is strictly ascending, so it has no duplicates, and holds exactly the set's elements |
| `Validator.ValidateFileExists` | csv_validator/validator.py:35-37 | fails exactly when the path does not exist; the failure names the path |
| `Validator.FirstDecodable` | csv_validator/validator.py:23-30 | the chosen index decodes the file and no earlier candidate does; it is past the end only when no candidate decodes |
| `Validator.ReadCsv` | csv_validator/validator.py:21-32 | reading fails exactly when no candidate decodes; on success it returns the first decoding candidate and that candidate's table; the failure names all candidates and chains the last one tried |
| `Validator.ReadCsvRows` | csv_validator/validator.py:21-32 | the encoding loop with its early return and last-error tracking computes `ReadCsv` |
| `Validator.ChoosesFirstDecodable` | csv_validator/validator.py:23-27 | a decoding candidate preceded only by non-decoding ones is the one chosen, whatever the later candidates do |
| `Validator.SignatureVariantNeverChosen` | csv_validator/validator.py:10 | if every `utf-8-sig` decoding is also a `utf-8` decoding, the default order never picks `utf-8-sig` |
| `Validator.ValidateColumns` | csv_validator/validator.py:40-47 | no data row fails first, before any comparison; otherwise it passes exactly when every required name is in the header; on failure the list holds exactly the required names absent from the header, strictly ascending |
| `Validator.ColumnIndex` | csv_validator/validator.py:65 | the column is found exactly when the header has the name; the index is the last position holding it |
| `Validator.Classify` | csv_validator/validator.py:54-69 | in this order: too many fields gives an overflow carrying exactly the fields past the header; too few gives missing columns; a correctly sized row passes exactly when its stripped age parses, and otherwise gets `InvalidAge` carrying that stripped value (so an empty age is always rejected); an invalid-age error arises only for a correctly sized row |
| `Validator.WidthDecidesFirst` | csv_validator/validator.py:55-62 | a wrongly sized row gets the same verdict whatever the age column |
| `Validator.ValidateRows` | csv_validator/validator.py:50-71 | the row loop, with `continue` after an overflow or an underflow, computes `RowErrors` |
| `Validator.RowErrorsSound` | csv_validator/validator.py:53-69 | every error names a row from 1 to the row count and carries that row's own issue |
| `Validator.RowErrorsComplete` | csv_validator/validator.py:53-69 | every rejected row `i` appears as an error with index `i` |
| `Validator.RowErrorsOrdered` | csv_validator/validator.py:53 | error indices strictly increase, so a row yields at most one error; there are never more errors than rows |
| `Validator.RowErrorsEmpty` | csv_validator/validator.py:50-71 | the error list is empty exactly when every row passes |
| `Validator.MessageNamesRow` | csv_validator/validator.py:56-69 | a message starts with `Row `, then the row number as decimal text, then a colon; the number parses back to the index |
| `Validator.MessagesDistinguishRows` | csv_validator/validator.py:56-69 | errors of different rows have different messages |
| `Validator.Ages` | csv_validator/validator.py:76 | one age per row, each the parsed value of that row's stripped age text |
| `Validator.ComputeSummary` | csv_validator/validator.py:75-79 | it needs at least one row and every age parsing; the total is the row count and the average is the mean of the parsed ages |
| `Validator.Mean` | csv_validator/validator.py:78 | the mean times the count equals the sum |
| `Validator.SumBounds` | csv_validator/validator.py:78 | the sum of values in `[lo, hi]` lies between `count * lo` and `count * hi` |
| `Validator.MeanWithinBounds` | csv_validator/validator.py:78 | the mean lies between any lower and upper bound of the values |
| `Validator.CleanRowsHaveSummary` | csv_validator/validator.py:90-101 | once the schema check passes and no row is rejected, there is a row, every row is correctly sized, and every age parses, so its `int()` calls and its divisor cannot fail |
| `Validator.ValidateCsv` | csv_validator/validator.py:82-107 | a missing file is `NotFound`, and `NotFound` means a missing file; a decode failure happens exactly when the file exists and no default encoding decodes it; on success the encoding is the reader's choice, the schema check passed, the total is the row count, the errors are `validate_rows`' output, the average is present exactly when there are no errors, and then it is the mean of the ages |
| `Validator.SchemaFailures` | csv_validator/validator.py:87-90 | for an existing, decodable file, `NoRows` happens exactly when there are no data rows; any other hard failure is the schema check's missing-columns report |
| `Cli.ExpectedColumnsTrimmed` | csv_validator/cli.py:31 | every expected column is non-empty, has no whitespace at either end, and contains no comma |
| `Cli.ExpectedColumnsExact` | csv_validator/cli.py:31 | every piece that strips to something non-empty is included, and every column is the stripped form of some piece |
| `Cli.ExpectedColumnsOfJoin` | csv_validator/cli.py:31 | clean names joined with commas parse back to exactly those names |
| `Cli.DefaultColumns` | csv_validator/cli.py:18 | the default argument gives exactly `{id, nombre, edad, ciudad}` |
| `Cli.ExitCode` | csv_validator/cli.py:33-50 | 2 exactly for a failure; 1 exactly for a result with errors; 0 exactly for a result without errors |
| `Cli.RunOutcomes` | csv_validator/cli.py:31-50 | in the model, status 2 exactly for a missing file, no decoding, or a failed schema check; status 0 only when an average exists to print; status 1 never has one |
| `Scenarios.CellsPass` | csv_validator/validator.py:64-69 | well-sized rows whose age cells are the decimal texts of some numbers all pass, and their parsed ages are exactly those numbers |
| `Scenarios.ThreeValidRows` | csv_validator/validator.py:82-107 | ages 23, 40 and 31 give no errors, 3 rows, mean 94/3, encoding `utf-8`, status 0 |
| `Scenarios.MissingCity` | csv_validator/validator.py:44-47 | a header without `ciudad` fails with the missing list `["ciudad"]`, status 2 |
| `Scenarios.NonNumericAge` | csv_validator/validator.py:64-69 | an age of `abc` gives exactly one error, `Row 1: invalid edad -> 'abc'`, no average, status 1 |
| `Scenarios.EmptyFile` | csv_validator/validator.py:41-42 | an empty file fails with no rows, status 2 |
| `Scenarios.OnlyWindows1252` | csv_validator/validator.py:21-32 | a file that decodes only as `cp1252` is read with the third candidate, and that encoding is reported |
| `Scenarios.AbsentFile` | csv_validator/validator.py:87-88 | a missing path is reported as not found, whatever its contents would decode to |

`Cli.Run` is `main` after argument parsing. It is the exit code of the pipeline run on the columns parsed from the argument. `Cli.RunOutcomes` states its properties.

`Cli.ExpectedColumns` is the set comprehension at csv_validator/cli.py:31: the stripped comma-separated pieces that are not empty. Its properties are `Cli.ExpectedColumnsTrimmed`, `Cli.ExpectedColumnsExact` and `Cli.ExpectedColumnsOfJoin`.

`Validator.Message` renders the three f-strings at csv_validator/validator.py:56, 61 and 69: `Row <i>: ` followed by the reason for the issue. `Validator.Reason` gives the reason and `Validator.Quoted` and `Validator.ListRepr` give the `repr` parts. Its properties are `Validator.MessageNamesRow` and `Validator.MessagesDistinguishRows`.

## Left out

- File system and decoding: `Path.exists`, opening the file, closing it on every path, and decoding bytes under each codec are not modelled. They become the inputs `FileView.present` and `FileView.decodings`; the codec tables are library behaviour.
- CSV parsing: `csv.DictReader` (quoting, embedded newlines, skipping blank lines, building the header from the first line) is a library. The model takes its output, a `Table`, as given. Since blank lines are skipped, real rows are never empty; the model accepts any row.
- Other exceptions: `main` returns 2 for any exception. The model's hard failures are the four the pipeline raises: not found, no decoding, no rows, missing columns. A path that exists but cannot be opened (a directory, no permission) is not modelled. A `csv.Error` from the reader is not modelled either.
- Encodings as a general iterable: the candidates are a sequence. An exhausted generator passed as `encodings` is not modelled.
- Floating point: the mean is an exact `real`, not an IEEE double. The `:.1f` formatting of the printed average (cli.py:48) is not modelled.
- Validator.Quoted: `repr` of a string is shown as the text in single quotes. Python's choice of double quotes and its escaping are not modelled. The same applies to list rendering in `ListRepr`.
- Text.IsSpace: only ASCII whitespace is recognised. `str.strip()` also removes non-ASCII whitespace; that is not modelled.
- Exception messages: the failure variants carry the data of each message (the path, the candidate encodings, the sorted missing names). The message text is not modelled. Exception chaining (`from last_error`) is modelled as the name of the last encoding tried.
- Command-line plumbing: `argparse`, the `sys.argv` fallback, and all printing in cli.py (lines 10-26, 30, 36, 39-49) are I/O. `Cli.Run` takes the parsed arguments directly.
- Validator.ComputeSummary: states the average as the exact mean of the parsed ages. The source's float result is not modelled. Nor is the `ZeroDivisionError` it would raise on zero rows, which `CleanRowsHaveSummary` rules out for every call from the pipeline.
- Validator.ComputeSummary: it always succeeds once its requirements hold. The source's `sum(ages) / total` (validator.py:78) raises `OverflowError` when the mean is beyond the float range, about 1.8e308. One example is a single row whose age is `1` followed by 309 zeros. There `validate_csv` raises and `main` returns 2, where the model gives a result with an average and `Cli.RunOutcomes` status 0.
- Numbers.ParseInt: accepts digit runs of any length. Recent CPython releases (3.11 and later, plus security releases of earlier lines) make `int()` reject strings of more than 4300 digits by default, and the limit is configurable at run time. Under such a limit, a row with a longer age is rejected as an invalid age (validator.py:66-69) and the exit status is 1. The model passes that row. `int()` also accepts non-ASCII decimal digits; the model accepts only `0`-`9`.
