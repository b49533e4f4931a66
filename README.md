# Baserow table export — a verified model

`BaserowToJSONlatest.py` exports every row of a Baserow table into a local
JSON file, one page of rows at a time. It reads `config.txt` (lines of
`key = value`), then loops: fetch page `n`; stop when its `results` are
empty; otherwise append the records to `database_dump.json`, write `n + 1`
to `status.txt`, and go on with page `n + 1`.

This project models that script in Dafny:

- `text.dfy` (module `Text`): Python's `str.strip()` and `str.split(sep)`,
  with the white-space set of `str.isspace()`.
- `numerals.dfy` (module `Numerals`): `str(n)` for integers and the decimal
  reading used for numeric settings, with their round trip.
- `config.dfy` (module `Config`): `read_config` as a line parser, a fold that
  specifies the whole load, the `for` loop that fills the dictionary, and the
  five setting lookups of `main`.
- `accumulator.dfy` (module `Accumulator`): `append_data_to_file` on file
  contents. The file is overwritten from offset 0 without truncation, so a
  shorter rewrite leaves stale bytes at the end. JSON is opaque: a `Codec`
  holds the serialiser and the parser as two function values. `Lawful` names
  the two facts the accumulator relies on: reading back what was written
  gives the same records, and writing more records never gives shorter text.
- `store.dfy` (module `Store`): class `Files` holds the two files as
  fields. `AppendData` and `UpdateStatus` change them in place.
- `driver.dfy` (module `Driver`): the `while True` loop of `main` as a
  method, specified by the function `RunFrom`, and `main` itself as
  `Export`. The server is a finite sequence of responses. Page `p` is
  element `p - 1`. `None` stands for a response without a `results` key.

## Model

| member | source | states |
|---|---|---|
| `Text.IsSpace` | BaserowToJSONlatest.py:11-12 | the characters `str.isspace()` accepts and `strip()` removes: the ASCII controls tab to carriage return, the separators 0x1C to 0x1F, space, and the Unicode spaces and line and paragraph separators |
| `Text.TrimLeft` | BaserowToJSONlatest.py:11-12 | the result is no longer than the input and does not start with white space |
| `Text.TrimLeftSuffix` | BaserowToJSONlatest.py:11-12 | what `lstrip()` keeps is a suffix of the input, and everything it drops is white space |
| `Text.TrimRight` | BaserowToJSONlatest.py:11-12 | the result is no longer than the input, starts like it, and does not end with white space |
| `Text.TrimRightPrefix` | BaserowToJSONlatest.py:11-12 | what `rstrip()` keeps is a prefix of the input, and everything it drops is white space |
| `Text.Strip` | BaserowToJSONlatest.py:11-12 | `strip()` leaves no white space at either end |
| `Text.StripIsSlice` | BaserowToJSONlatest.py:11-12 | `strip()` returns a slice of its input and only white space lies outside that slice |
| `Text.StripAddsNothing` | BaserowToJSONlatest.py:12 | a character absent from a piece is absent from the stripped piece, so stripped keys and values hold no `=` |
| `Text.StripTrimmed` | BaserowToJSONlatest.py:11-12 | stripping a string with no white space at its ends changes nothing (stripping is idempotent) |
| `Text.Split` | BaserowToJSONlatest.py:11 | `split('=')` yields one more piece than there are `=`, and no piece contains `=` |
| `Text.SplitJoin` | BaserowToJSONlatest.py:11 | joining the pieces of `split('=')` with `=` gives the input back |
| `Text.SplitOnce` | BaserowToJSONlatest.py:11 | with exactly one `=`, the two pieces are the text before it and the text after it |
| `Text.SplitJoined` | BaserowToJSONlatest.py:11 | two `=`-free strings joined by one `=` hold exactly one `=` and split back into those two strings |
| `Numerals.Digits` | BaserowToJSONlatest.py:48 | the text of a natural number is a non-empty run of ASCII digits |
| `Numerals.DigitsCanonical` | BaserowToJSONlatest.py:48 | that text has no leading zero, and only 0 gives "0" |
| `Numerals.Decimal` | BaserowToJSONlatest.py:48 | `str(n)` is non-empty and starts with `-` exactly when `n` is negative |
| `Numerals.ParseDecimal` | BaserowToJSONlatest.py:54-57 | a value reads as a number exactly when it is an optional `-` followed by one or more digits, and the sign matches |
| `Numerals.ValueOfLeadingZeros` | BaserowToJSONlatest.py:54-57 | leading zero digits do not change the value of a run of digits |
| `Numerals.ParseLeadingZeros` | BaserowToJSONlatest.py:54-57 | a numeric setting written with any number of leading zeros, with or without `-`, reads as the number itself ("007" is 7, "-0" is 0) |
| `Numerals.DigitsRoundTrip` | BaserowToJSONlatest.py:48 | reading back the digits of `n` gives `n` |
| `Numerals.DecimalRoundTrip` | BaserowToJSONlatest.py:45-49 | the status text of page `n`, read back as a decimal, gives `n` |
| `Numerals.DecimalInjective` | BaserowToJSONlatest.py:45-49 | different page numbers give different status texts |
| `Config.ParseLine` | BaserowToJSONlatest.py:11-12 | a line parses exactly when, once stripped, it holds exactly one `=`; "not enough values" exactly when it holds none (a blank line included); the key and value are stripped and free of `=` |
| `Config.ParseLineMeaning` | BaserowToJSONlatest.py:11-12 | a line such as `key = value`, whose stripped text is two `=`-free pieces around one `=`, parses to those two pieces, each stripped |
| `Config.ParseLineAt` | BaserowToJSONlatest.py:11-12 | every line that parses yields the stripped text before its `=` as key and the stripped text after it as value |
| `Config.ParseLineRoundTrip` | BaserowToJSONlatest.py:11-12 | the line `key=value` built from a stripped key and value without `=` parses back to that key and value |
| `Config.ParseLines` | BaserowToJSONlatest.py:10-11 | one parse result per line, in file order |
| `Config.Fill` | BaserowToJSONlatest.py:10-12 | the `for` loop as a fold over parsed lines: each entry is stored over any earlier one with its key, the first bad line aborts; keys already present stay present |
| `Config.LoadConfig` | BaserowToJSONlatest.py:6-14 | `read_config` as a whole: the fold from an empty dictionary over the file's parsed lines (its properties are the `LoadConfig*` lemmas) |
| `Config.ReadConfig` | BaserowToJSONlatest.py:6-14 | the `for` loop that fills the dictionary returns what the fold `LoadConfig` specifies, including the error of the first bad line |
| `Config.FillFails` | BaserowToJSONlatest.py:10-12 | storing fails exactly when some line failed, with the error of the first failing line |
| `Config.LoadConfigFails` | BaserowToJSONlatest.py:10-12 | the file loads exactly when every stripped line holds exactly one `=`; otherwise the load aborts with the error of the first bad line |
| `Config.FillKeys` | BaserowToJSONlatest.py:10-12 | the stored keys are the starting keys plus the keys of the lines |
| `Config.FillTrimmed` | BaserowToJSONlatest.py:11-12 | storing stripped entries into a dictionary of stripped keys and values keeps every key and value stripped |
| `Config.LoadConfigKeys` | BaserowToJSONlatest.py:10-12 | the dictionary's key set is exactly the set of stripped keys of the lines, and every key and value is stripped |
| `Config.FillSnoc` | BaserowToJSONlatest.py:12 | one more parsed line either aborts or sets its key and changes no other entry |
| `Config.LoadConfigSnoc` | BaserowToJSONlatest.py:10-12 | appending a line to the file either fails with that line's error or updates only that line's key |
| `Config.FillUntouched` | BaserowToJSONlatest.py:12 | a key that no line names keeps its value |
| `Config.FillLastWins` | BaserowToJSONlatest.py:12 | a key's value is the value of the last entry with that key |
| `Config.LoadConfigLastWins` | BaserowToJSONlatest.py:10-12 | for a key named on several lines, the last such line's value is the one stored |
| `Config.ReadSettings` | BaserowToJSONlatest.py:53-58 | `main` can start exactly when all five keys are present and both numeric settings read as numbers; the settings are those values; a failure reports the first lookup that fails in `main`'s order, naming the missing key or the value that does not read as a number |
| `Accumulator.Overwrite` | BaserowToJSONlatest.py:38-39 | writing from offset 0 without truncation gives length max(old, new); each byte comes from the new text where it reaches and from the old file beyond |
| `Accumulator.OverwriteExact` | BaserowToJSONlatest.py:38-39 | the overwrite leaves exactly the new text if and only if it is at least as long as the old file |
| `Accumulator.Appended` | BaserowToJSONlatest.py:32-43 | `append_data_to_file` on file contents: only an existing file can fail to read, and an existing file never gets shorter, since the rewrite does not truncate |
| `Accumulator.AppendToAbsent` | BaserowToJSONlatest.py:40-42 | a missing dataset file is created holding exactly the serialised new records, which read back as those records |
| `Accumulator.AppendExactIff` | BaserowToJSONlatest.py:35-39 | for an existing readable file, the result equals the serialisation of old records plus new ones if and only if that text is at least as long as the file was |
| `Accumulator.AppendLeavesStaleTail` | BaserowToJSONlatest.py:38-39 | when the new text is shorter, the file keeps its old length, differs from the new text, and ends with the old file's tail |
| `Accumulator.AppendKeepsHolds` | BaserowToJSONlatest.py:32-42 | with a lawful codec, a file holding records `held` (or absent) afterwards holds `held` followed by the new records |
| `Accumulator.AccumulateTwo` | BaserowToJSONlatest.py:32-42 | with no file to begin with, accumulating page A then page B gives a file that reads back as A followed by B |
| `Store.Files.AppendData` | BaserowToJSONlatest.py:32-43 | the new dataset file is what `Appended` gives: created from the data, or the extended array written over the old file; an unreadable file aborts the append and stays as it was; the status file is untouched |
| `Store.Files.UpdateStatus` | BaserowToJSONlatest.py:45-49 | the status file holds the decimal text of the page and reads back as that page; the dataset file is untouched |
| `Driver.Fetch` | BaserowToJSONlatest.py:62-63 | `data['results']` for a page: the page's recorded response, or no records for pages outside the recorded range |
| `Driver.RunFrom` | BaserowToJSONlatest.py:60-70 | the `while True` loop as a function: it exits at or before the first empty page, and leaves the files as they were when it exits on the starting page |
| `Driver.EndPage` | BaserowToJSONlatest.py:60-65 | the first page from the start whose `results` are empty or missing; every page before it has records |
| `Driver.Run` | BaserowToJSONlatest.py:60-70 | the `while True` loop ends with the outcome, exit page and files that `RunFrom` gives |
| `Driver.Export` | BaserowToJSONlatest.py:51-72 | `main` aborts on a bad configuration line or a missing or non-numeric setting, leaving the files untouched; otherwise it runs the loop from the configured starting page |
| `Driver.RunStops` | BaserowToJSONlatest.py:60-70 | for any codec the loop stops at or before the first empty page, and exactly there unless the dataset file fails to parse; it ends `Finished` on an empty `results` and `NoResults` on a missing one; the status file holds the exit page after at least one accumulated page and is untouched otherwise |
| `Driver.RunAccumulates` | BaserowToJSONlatest.py:60-70 | with a lawful codec and a dataset file that is the codec's own text of its records (or absent), the loop exits at the first empty page `e`; the file then holds its earlier records followed by the records of pages start to `e - 1` in page order; the status file holds `e` when at least one page was accumulated; the empty page is neither appended nor recorded |
| `Driver.ThreePageRun` | BaserowToJSONlatest.py:51-72 | pages [r1, r2], [r3] and an empty page, from page 1 with no file: the file holds [r1, r2, r3] and the status file "3" |
| `Driver.ErrorBodyAborts` | BaserowToJSONlatest.py:62-63 | a first page without `results` aborts the run at page 1 with both files unchanged |

## Left out

- `fetch_data` (HTTP GET, URL, headers, query parameters, status-code logging) is not modelled. The server's answers for the configured server, table, batch size and token are a parameter: a finite sequence of pages. So the server address, table number, batch size and token are read and checked but used for nothing else.
- Driver.Fetch: a page number below 1 has no records, so a starting page of 0 or less ends the run at once with `Finished`, nothing written. The script would request that page from the server and act on whatever it answers (most likely an error body without `results`, which aborts the run).
- The loop never ends if the server never returns an empty page. Because the remote side is finite, and pages outside `1..|remote|` have no records, every modelled run terminates.
- A `results` value that is falsy but not a list (`null`, `0`, `""`) is not modelled; `results` is a list of records or absent.
- JSON: `json.dump` (indent 4) and `json.load` are the two functions of a `Codec`. They are not defined here. Their round trip and growth (`Lawful`) are hypotheses of the lemmas that need them, not proved facts. A file that parses but holds something other than an array (so `extend` fails) counts as unreadable, like a file that does not parse.
- Numerals.ParseDecimal: accepts only an optional `-` followed by ASCII digits. Python's `int()` also accepts a `+` sign, surrounding white space, underscores between digits and non-ASCII digits.
- File I/O: the files are fields of `Store.Files`. Opening, `seek`, encoding, errors other than a missing file (permissions, a full disk) and interruption in the middle of a write are not modelled. The dataset text is bytes; `json.dump` escapes non-ASCII, so its characters and bytes coincide.
- The configuration file is given as its lines. Reading and splitting the file into lines is not modelled; the line terminator is white space and `strip()` removes it.
- All `print` logging.
- A blank configuration line aborts the load in the code (stripping gives "", which splits into one piece). A narrower reading would skip blank lines. The model follows the code.
