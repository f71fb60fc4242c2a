# Cookie log parser: a Dafny model

This project models the core of a small command-line tool that finds the most active
cookie of a day in a cookie log. The log is a comma-separated file whose first line is a
header and whose rows hold a cookie name and a timestamp such as
`2018-12-09T14:19:00+00:00`.

The tool runs three steps of its `CSVParser` class and then a selection:

- `parse` reads the file into a list of rows. Each line is stripped and split on `,`. The
  header row is deleted with `strip_header`.
- `strip_time` rewrites every field that is a full timestamp to its date, in place.
- `tabulate_matches` counts, for every row that contains the requested date in any column,
  the cookie in column 0.
- The selection takes the highest count and reports every cookie that has it.

Modules:

- `PyStr` (`py_str.dfy`) models the Python string operations the parser uses:
  whitespace `strip()`, `split(",")`, `",".join(...)` and `split("T", 1)[0]`.
  It proves the split/join round trips in both directions and the field count.
- `CsvParser` (`csv_parser.dfy`) models `csv_parser.py`. `CSVParser` has no fields, so its
  operations are methods of the module. The list they share is a `Table` object with a
  `rows` field. `StripHeader` and `StripTime` change that field in place. `TabulateMatches`
  only reads it.
  - `Parse`, `StripTime` and `TabulateMatches` are proved against the specification
    functions `Load`, `NormalizeTable` and `Tabulate`. `StripHeader` states its new state,
    `old(rows)[1..]`, directly.
  - Lemmas relate those functions to independent descriptions: the split of each line,
    the timestamp pattern, and a per-key row count `KeyCount`.
- `MostActiveCookie` (`most_active_cookie.dfy`) models `main` after the command line is
  read, and the max/tie selection. `Report` is the whole pipeline as a function and `Run`
  is the method that carries it out.

The file is given as a `Source`: either `Unreadable`, or `Readable(lines)`, the raw lines
that iterating over the open file yields. The Python exceptions that can escape are the
values of `Error`: `FileNotFoundError`, `IndexError` and `ValueError`.

Behaviour of the code worth knowing:

- A line is stripped of whitespace at both ends (`info.strip()`), not only of its line
  terminator.
- `parse` with the header flag on an empty file raises `FileNotFoundError`: deleting the
  header raises `IndexError` inside `strip_header`, and `parse` turns it into
  `FileNotFoundError`.
- An empty tally, which arises when no row mentions the date, raises `ValueError` from `max`.
- `parse` turns every failure into `FileNotFoundError`, not only failures to open the file.
  Its `except:` covers reading and header stripping as well.
- The timestamp pattern is applied with `re.match`. Its `$` also matches in front of a
  final newline. So a 26-character field that ends in `\n` also counts as a timestamp.

## Model

| member | source | states |
|---|---|---|
| `PyStr.Strip` | csv_parser.py:23 | `info.strip()`: the result neither starts nor ends with whitespace, is no longer than the input, and equals the input when the input has no whitespace at either end |
| `PyStr.TrimStart` | csv_parser.py:23 | the leading half of `strip()`: a suffix of the input whose removed prefix is all whitespace and whose first character is not |
| `PyStr.TrimEnd` | csv_parser.py:23 | the trailing half of `strip()`: a prefix of the input whose removed suffix is all whitespace and whose last character is not |
| `PyStr.Split` | csv_parser.py:23 | `split(",")` yields at least one field, and no field contains the separator |
| `PyStr.JoinSplit` | csv_parser.py:23 | joining the fields of a split with the separator gives back the split string |
| `PyStr.SplitJoin` | csv_parser.py:23 | splitting a join of one or more separator-free fields gives back exactly those fields |
| `PyStr.SplitCount` | csv_parser.py:23 | a split has exactly one more field than the string has separators |
| `PyStr.Before` | csv_parser.py:56 | `s.split("T", 1)[0]`: a prefix of `s` without `T`, followed in `s` by a `T` unless it is all of `s` |
| `PyStr.StripTerminated` | csv_parser.py:22-23 | stripping a line whose text neither starts nor ends with whitespace removes only the line terminator |
| `CsvParser.StripHeaderClient` | test_csv_parser.py:65-74 | the header-stripping tests as a caller sees them: the two-row list keeps its second row only, and the empty list raises `IndexError` and stays empty (proved by `assert`) |
| `CsvParser.Table.constructor` | csv_parser.py:21 | a new table is the empty list |
| `CsvParser.ParseLine` | csv_parser.py:23 | definition: the row of one line is `Split(Strip(line), ',')`; `ParsedRowShape` and `ParseWrittenRow` state its properties |
| `CsvParser.ParseLines` | csv_parser.py:21-24 | definition: one `ParseLine` row per line, in line order; `LoadWithoutHeader` states it |
| `CsvParser.Load` | csv_parser.py:19-28 | definition of what `parse` returns; `Parse` is proved equal to it, and `LoadWithoutHeader`, `LoadWithHeader`, `LoadErrors` and `LoadedRowsNonEmpty` state its properties |
| `CsvParser.StripHeader` | csv_parser.py:30-41 | on a non-empty list it leaves `old(rows)[1..]` and succeeds; on an empty list it raises `IndexError` and the list stays empty |
| `CsvParser.Parse` | csv_parser.py:11-28 | builds a fresh table whose rows are `Load(src, header)`; fails exactly when `Load` does, and then always with `FileNotFoundError` |
| `CsvParser.ParsedRowShape` | csv_parser.py:22-24 | each loaded row joins with `,` back to its stripped line, has one field more than that line has commas, and no field holds a comma |
| `CsvParser.ParseWrittenRow` | csv_parser.py:22-24 | a row written as comma-joined fields plus a line terminator loads back as the same row, when no field holds a comma and the text has no whitespace at either end |
| `CsvParser.LoadWithoutHeader` | csv_parser.py:21-24 | without header stripping, a readable file loads to one row per line, in line order, each the parse of its line |
| `CsvParser.LoadWithHeader` | csv_parser.py:21-26 | with header stripping, a readable file loads exactly when it has a line, and then to the rows of lines 2..n in order |
| `CsvParser.LoadErrors` | csv_parser.py:19-28 | the only error `parse` can raise is `FileNotFoundError`, and an unreadable file always raises it |
| `CsvParser.LoadedRowsNonEmpty` | csv_parser.py:23 | no loaded row is empty, because a split always has a field |
| `CsvParser.IsDateTime` | csv_parser.py:52 | definition: the pattern `(\d{4}-\d{2}-\d{2})T(\d{2}:\d{2}:\d{2}\+\d{2}:\d{2})` over ASCII digits, position by position |
| `CsvParser.MatchesTimestamp` | csv_parser.py:52-55 | definition of `re.match(timedate_pattern, s)`: the whole field matches, or the first 25 characters match followed by one final newline, which `$` also accepts; `DatePart` and `NormalizeField` state what follows from it |
| `CsvParser.DatePart` | csv_parser.py:52-56 | on a field that matches the timestamp pattern, `split("T", 1)[0]` is the first ten characters |
| `CsvParser.NormalizeField` | csv_parser.py:52-56 | a field that matches the pattern becomes its first ten characters and any other field is kept; the result never matches |
| `CsvParser.NormalizeRow` | csv_parser.py:54-56 | definition: every field of one row normalized; `NormalizeTableFields` states it |
| `CsvParser.NormalizeTable` | csv_parser.py:53-56 | definition of the table `strip_time` leaves; `StripTime` is proved equal to it, and `NormalizeTableFields`, `NormalizeTableComplete` and `NormalizeTableIdempotent` state its properties |
| `CsvParser.StripTime` | csv_parser.py:43-58 | the nested loop leaves `rows == NormalizeTable(old(rows))` |
| `CsvParser.NormalizeTableFields` | csv_parser.py:53-56 | `strip_time` keeps the number of rows and every row's length, and rewrites a field to its first ten characters exactly when it matches the pattern |
| `CsvParser.NormalizeTableComplete` | csv_parser.py:53-56 | after `strip_time` no field matches the timestamp pattern |
| `CsvParser.NormalizeTableIdempotent` | csv_parser.py:53-56 | `strip_time` applied twice leaves the same table as applied once |
| `CsvParser.NormalizeEntry` | csv_parser.py:53-56 | a row of a non-timestamp identifier and a timestamp normalizes to the identifier and the date |
| `CsvParser.StripTimeExample` | test_csv_parser.py:76-79 | `[["eb1432fa21", "2020-11-11T30:30:30+30:30"]]` normalizes to `[["eb1432fa21", "2020-11-11"]]` |
| `CsvParser.Bump` | csv_parser.py:73 | `hashmap[k] = hashmap.get(k, 0) + 1`: `k` is present with its old count (0 when absent) plus one, and every other key keeps its presence and its count |
| `CsvParser.TabulateFrom` | csv_parser.py:69-74 | definition of the scan from a given map; `TabulateErrors` and `TabulateCounts` state its errors and counts |
| `CsvParser.Tabulate` | csv_parser.py:68-74 | definition of what `tabulate_matches` returns; `TabulateMatches` is proved equal to it, and `TabulateSpec` and `TabulateNoMatch` state its properties |
| `CsvParser.TabulateMatches` | csv_parser.py:60-76 | the loop returns `Tabulate(rows, target, keyIndex)` without changing the table, and fails exactly when some row containing `target` is too short |
| `CsvParser.TabulateErrors` | csv_parser.py:71-73 | the tally fails, always with `IndexError`, exactly when some row containing `target` has no column `keyIndex`; rows without `target` are never indexed |
| `CsvParser.TabulateCounts` | csv_parser.py:71-73 | each key ends with its starting count plus the number of rows counting toward it; the counts grow by the number of rows containing `target` |
| `CsvParser.TabulateSpec` | csv_parser.py:69-74 | without an error, a key is in the map exactly when some row containing `target` holds it in column `keyIndex`; its count is the number of such rows, at least 1; the counts sum to the number of rows containing `target` |
| `CsvParser.TabulateNoMatch` | csv_parser.py:70-74 | a target that no row contains leaves the map as it was, so `tabulate_matches` returns the empty dict and no error |
| `CsvParser.KeyCountPositive` | csv_parser.py:72-73 | a row that contains `target` and has column `keyIndex` counts at least once toward the key in that column |
| `CsvParser.TabulateClient` | test_csv_parser.py:91 | the list analogue of the `IndexError` test: `[["dog"]]` with index 999 raises `IndexError` for target `dog`, and gives the empty map for a target no row holds (proved by `assert`) |
| `MostActiveCookie.MaximalKeys` | most_active_cookie.py:53-54 | definition: the keys whose count no other key exceeds; `MaximalKeyExists` and `SelectMostActive` state its properties |
| `MostActiveCookie.MaximalKeyExists` | most_active_cookie.py:53 | every non-empty map has a key of maximal count, so `max` over a non-empty tally is attained |
| `MostActiveCookie.MaxCount` | most_active_cookie.py:53 | `max(hashmap.values())`: no count exceeds the result and some key has it; an empty map raises `ValueError` |
| `MostActiveCookie.MostActive` | most_active_cookie.py:53-54 | defined as `MaximalKeys(m)`; ensures the result is a non-empty subset of the keys, all sharing one count; an empty map gives `ValueError` |
| `MostActiveCookie.SelectMostActive` | most_active_cookie.py:53-54 | filtering the keys by the maximum gives exactly the maximal keys: no tied key is dropped and no other key is included |
| `MostActiveCookie.Report` | most_active_cookie.py:46-54 | definition of the whole program as a function: `Load` with the header stripped, `NormalizeTable`, `Tabulate` on column 0, then `MostActive`, each error passed on; `Run` is proved equal to it, and `ReportErrors` and `TimestampOnDateCounts` state its properties |
| `MostActiveCookie.Run` | most_active_cookie.py:46-54 | `parse` with the header stripped, then `strip_time`, then `tabulate_matches` on column 0, then the selection, yields `Report(src, date)` |
| `MostActiveCookie.ReportErrors` | most_active_cookie.py:47-53 | the program fails only with `FileNotFoundError`, exactly when loading fails, or with `ValueError`, exactly when no normalized row holds the date; it never raises `IndexError` because every loaded row has a column 0 |
| `MostActiveCookie.TimestampOnDateCounts` | most_active_cookie.py:47-51 | a loaded row holding a full timestamp on the requested date counts toward the cookie in its column 0, and the program then reports a cookie |
| `MostActiveCookie.SampleTabulates` | test_csv_parser.py:97-112 | the test table tallied for `2018-12-09` on column 0 gives exactly `{AtY0laUfhglK3lC7: 2, SAZuXPGUrfbcn5UA: 1, 5UAVanZf6UtGyKVS: 1}` |
| `MostActiveCookie.SampleMostActive` | most_active_cookie.py:53-54 | the selection over that tally reports exactly `AtY0laUfhglK3lC7` |

## Left out

- Opening and reading the file. A file is a `Source` of raw lines or `Unreadable`. Failures while opening or reading are all `Unreadable`. Closing the file is not modelled.
- The command line, logging and printing (`parse_cli`, `logging.basicConfig`, `print`) are not modelled. Neither is the run after a failed `parse_cli`, which goes on with `args` undefined. `Run` takes the file and the date as parameters and returns the cookies instead of printing them.
- CsvParser.NormalizeField: the pattern's `\d` is modelled as the ASCII digits `0`-`9`. Python's `\d` on `str` also accepts other Unicode decimal digits.
- PyStr.IsSpace lists the characters for which Python's `str.isspace` holds. It is a fixed list taken from the Unicode tables, not derived from them.
- The `TypeError` paths are not modelled: a non-list table, a non-string field or target, a non-integer or missing argument (test_csv_parser.py:61-63, 86-90). Dafny's static types rule them out. The same holds for the `except: raise TypeError` of `strip_time` and the `TypeError` branch of `strip_header`.
- CsvParser.TabulateMatches takes `keyIndex: nat`. Python's negative indices, which count from the end of a row, are not modelled.
- A table row that is a plain string instead of a list is not modelled (test_csv_parser.py:90-91). There, `target in entry` is a substring test. `TabulateClient` checks the list analogue, `[["dog"]]` with index 999.
- MostActiveCookie.SelectMostActive returns a `set`, which cannot hold a key twice. The order of the printed keys follows dict order, which is not modelled.
- CsvParser.StripTime: rows are values. If two rows of the Python list were the same list object, both would be rewritten together. The model cannot express that sharing. Because normalization is idempotent, the final contents are the same either way.
