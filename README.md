# PyFreeLeh spreadsheet wrapper: query decoding and write-response normalisation

PyFreeLeh uses a Google spreadsheet as a storage backend. `GoogleSheetWrapper`
(`src/pyfreeleh/providers/google/sheet/wrapper.py`) is its thin layer over the
spreadsheet service. This project models the two parts of that layer that hold logic
of their own rather than remote calls:

- **The query-result decoder** (`_convert_query_result`, `_parse_cell`). The query
  endpoint answers with text such as `freeleh({...})`. The decoder cuts out the text
  from the first `{` to the last `}` and parses it as JSON. It then walks `table.cols`
  and `table.rows`, building one dictionary per row keyed by column id. Empty cells are
  skipped. Every other cell is decoded according to its column's declared type:
  `boolean`, `number`, `string`, `date`, `datetime`, `timeofday`. Any other type raises.
- **Write-response normalisation** (`update_rows`, `batch_update_rows`, `_insert_rows`).
  These turn the service's parsed responses into `UpdateRowsResult` and
  `InsertRowsResult` records.

Modules:

- `Wrappers` (`wrappers.dfy`): `Option` and `Result`. An `Err` stands for the exception
  the source raises at that point.
- `JsonModel` (`json_model.dfy`): the JSON scalars that `json.loads` produces. A number
  keeps its literal, so no float arithmetic is done.
- `PyText` (`py_text.dfy`): the Python built-ins the decoder relies on.
  - `str.index` and `str.rindex` for one character.
  - The white space `int()` and `float()` ignore at both ends. This is the ASCII space,
    `\t \n \v \f \r`, and the non-ASCII characters `str.isspace()` accepts. The ASCII
    separators U+001C..U+001F are not ignored.
  - Which texts `int()` accepts, and the integer they denote. This covers the sign and
    PEP 515 underscores.
  - Which texts with a decimal point `float()` accepts.
- `QueryDecoder` (`query_decoder.dfy`): the decoder.
  - `Envelope` cuts out the payload.
  - `ParseCell` decodes one cell.
  - `DecodeRow` and `DecodeRows` are the specification functions of the two nested loops.
  - `BuildRecord` (the inner loop) and `ConvertQueryResult` (the whole method) are
    imperative methods. Each is proved equal to its specification function.
- `UpdateResults` (`update_results.dfy`): response normalisation. `BatchUpdateRowsResults`
  is the loop of `batch_update_rows`.

Parts of the system outside the model are parameters:

- `json.loads`, together with the `resp["table"]["cols"]` and `resp["table"]["rows"]`
  lookups, is the parameter `loads: string -> Option<Table>`. None stands for the
  payload failing to parse.
- `A1Range.from_notation` is the parameter `fromNotation: string -> Option<R>` over an
  arbitrary range type `R`. `A1Range` is defined in a module that is not part of this
  model.

Where the code and its design description differ, the model follows the code:

- `cols[cell_idx]` is evaluated only for non-empty cells. A row may have more cells than
  there are columns, provided the extra cells are empty (`DecodeRowSucceeds`).
- `batch_update_rows` returns one result per entry of the service's `responses` list, in
  that list's order. The submitted requests are not consulted.
- An unsupported column type raises a plain `ValueError` naming the type. The model's
  error is `UnsupportedType(typ)`.
- If the last `}` comes before the first `{`, the Python slice is empty. The model's
  payload is then `[]`, and `loads` decides the result.

## Model

| member | source | states |
|---|---|---|
| `PyText.IndexOf` | src/pyfreeleh/providers/google/sheet/wrapper.py:146 | `response.index("{")`: none exactly when the character is absent; otherwise the position of its first occurrence |
| `PyText.RIndexOf` | src/pyfreeleh/providers/google/sheet/wrapper.py:146 | `response.rindex("}")`: none exactly when the character is absent; otherwise the position of its last occurrence |
| `QueryDecoder.Envelope` | src/pyfreeleh/providers/google/sheet/wrapper.py:146 | the payload is cut out exactly when both `{` and `}` occur; otherwise the error names the first missing brace; a non-empty payload starts with `{` and ends with `}` |
| `QueryDecoder.EnvelopeIsOuterBraces` | src/pyfreeleh/providers/google/sheet/wrapper.py:146 | the payload is `response[first '{' .. last '}']` inclusive, or empty when the last `}` precedes the first `{` |
| `QueryDecoder.EnvelopeOfWrapped` | src/pyfreeleh/providers/google/sheet/wrapper.py:144-146 | for `prefix + {...} + suffix` with no `{` in the prefix and no `}` in the suffix, such as `freeleh({...});`, the payload is exactly the object |
| `QueryDecoder.ParseCell` | src/pyfreeleh/providers/google/sheet/wrapper.py:163-182 | an empty cell or a null `v` gives None for every column type, before the type is read; a missing `v` raises KeyError; the error is "unsupported type" exactly when `v` is non-null and the type is not one of the six known ones, and it names that type; None comes only from an empty cell or a null `v` |
| `QueryDecoder.RawValueColumns` | src/pyfreeleh/providers/google/sheet/wrapper.py:169-177 | boolean and string columns return the raw `v` unchanged |
| `QueryDecoder.DateColumnsKeepFormatted` | src/pyfreeleh/providers/google/sheet/wrapper.py:178-180 | date, datetime and timeofday columns return `f` verbatim, and raise KeyError when there is no `f` |
| `QueryDecoder.NumberColumnRule` | src/pyfreeleh/providers/google/sheet/wrapper.py:171-175 | a number column needs `f`; with a `.` in `f` it gives the float text `f` when `float()` accepts it, otherwise it raises; without a `.` it gives the integer `int(f)`, or raises when `int()` refuses `f` |
| `QueryDecoder.NumberDependsOnlyOnFormatted` | src/pyfreeleh/providers/google/sheet/wrapper.py:171-175 | two non-null number cells with the same `f` decode to the same result, whatever their `v` |
| `QueryDecoder.NumberDecodesNumeral` | src/pyfreeleh/providers/google/sheet/wrapper.py:175 | a number cell showing `str(n)` decodes to the integer `n` |
| `QueryDecoder.NumberRefusesForeignCharacter` | src/pyfreeleh/providers/google/sheet/wrapper.py:175 | a number cell whose `f` has no `.` but another non-numeric character raises |
| `QueryDecoder.NumberDecodesPointDigits` | src/pyfreeleh/providers/google/sheet/wrapper.py:172-173 | a number cell showing digits, a point and digits takes the float branch and keeps `f` as the value's text |
| `QueryDecoder.NumberRefusesForeignPointText` | src/pyfreeleh/providers/google/sheet/wrapper.py:172-173 | a number cell whose `f` has a `.` and a character no float literal has (as in "1,000.5") raises |
| `QueryDecoder.NumberExampleFortyTwo` | src/pyfreeleh/providers/google/sheet/wrapper.py:175 | `f = "42"` gives the integer 42, whatever the raw value |
| `QueryDecoder.NumberExampleThousands` | src/pyfreeleh/providers/google/sheet/wrapper.py:175 | `f = "1,000"` raises instead of being read as 1000 |
| `QueryDecoder.DecodeRowSucceeds` | src/pyfreeleh/providers/google/sheet/wrapper.py:154-159 | a row decodes exactly when every non-empty cell has a column at its index and that cell parses; empty cells never fail |
| `QueryDecoder.DecodeRowFailure` | src/pyfreeleh/providers/google/sheet/wrapper.py:154-159 | a failing row raises the error of its first failing non-empty cell |
| `QueryDecoder.DecodeRowKeys` | src/pyfreeleh/providers/google/sheet/wrapper.py:153-159 | the keys of a row's dictionary are exactly the ids of the columns whose cell is non-empty; an empty cell adds no key |
| `QueryDecoder.DecodeRowEntry` | src/pyfreeleh/providers/google/sheet/wrapper.py:158-159 | the value under a column id is the decoding of the last non-empty cell with that id |
| `QueryDecoder.NullCellEntry` | src/pyfreeleh/providers/google/sheet/wrapper.py:154-166 | a present cell with a null `v` puts None under its column's id |
| `QueryDecoder.DecodeRowStopsAtError` | src/pyfreeleh/providers/google/sheet/wrapper.py:154-159 | once a prefix of the cells has raised, the row raises that same error |
| `QueryDecoder.DecodeRowsPerRow` | src/pyfreeleh/providers/google/sheet/wrapper.py:151-161 | exactly one dictionary per input row, in row order; success exactly when every row decodes; no rows give the empty list |
| `QueryDecoder.DecodeRowsFailure` | src/pyfreeleh/providers/google/sheet/wrapper.py:151-161 | a failing table raises the error of its first failing row |
| `QueryDecoder.DecodeRowsStopsAtError` | src/pyfreeleh/providers/google/sheet/wrapper.py:151-161 | once a prefix of the rows has raised, the table raises that same error |
| `QueryDecoder.IsEmpty` | src/pyfreeleh/providers/google/sheet/wrapper.py:155 | `not cell`: a null cell or `{}`; no contract of its own, the rows of `ParseCell`, `DecodeRowSucceeds` and `DecodeRowKeys` state what an empty cell does |
| `QueryDecoder.DecodeRow` | src/pyfreeleh/providers/google/sheet/wrapper.py:153-159 | the inner loop as a function over a prefix of the cells; no contract of its own, described by `DecodeRowSucceeds`, `DecodeRowFailure`, `DecodeRowKeys`, `DecodeRowEntry` and `DecodeRowStopsAtError`, and implemented by `BuildRecord` |
| `QueryDecoder.DecodeRows` | src/pyfreeleh/providers/google/sheet/wrapper.py:151-161 | the outer loop as a function over a prefix of the rows; no contract of its own, described by `DecodeRowsPerRow`, `DecodeRowsFailure` and `DecodeRowsStopsAtError` |
| `QueryDecoder.QueryResult` | src/pyfreeleh/providers/google/sheet/wrapper.py:143-161 | `_convert_query_result`: `Envelope`, then `loads`, then `DecodeRows`; no contract of its own, described by `QueryResultOfWrapped` and implemented by `ConvertQueryResult` |
| `QueryDecoder.QueryResultOfWrapped` | src/pyfreeleh/providers/google/sheet/wrapper.py:143-161 | a wrapped answer decodes to the rows of the table its object holds; a table without rows gives `[]` |
| `QueryDecoder.BuildRecord` | src/pyfreeleh/providers/google/sheet/wrapper.py:153-159 | the inner loop fills the row dictionary to exactly `DecodeRow`, raising what `DecodeRow` raises |
| `QueryDecoder.ConvertQueryResult` | src/pyfreeleh/providers/google/sheet/wrapper.py:143-161 | the method returns exactly the specified result: envelope, then `loads`, then `DecodeRows` |
| `PyText.ParseIntFormatInt` | src/pyfreeleh/providers/google/sheet/wrapper.py:175 | `int(str(n)) == n` for every integer `n` |
| `PyText.ParseInt` | src/pyfreeleh/providers/google/sheet/wrapper.py:175 | `int(f)` in base 10; no contract of its own, described by `ParseIntFormatInt`, `ParseIntRefusesForeignCharacter`, `ParseIntRefusesThousands` and `ParseIntRefusesSeparatorPadding` |
| `PyText.ParseIntRefusesForeignCharacter` | src/pyfreeleh/providers/google/sheet/wrapper.py:175 | `int()` refuses a text that, once stripped, holds a character other than a digit, a sign or `_` |
| `PyText.ParseIntRefusesThousands` | src/pyfreeleh/providers/google/sheet/wrapper.py:175 | `int("1,000")` raises, and "1,000" has no decimal point |
| `PyText.ParseIntRefusesSeparatorPadding` | src/pyfreeleh/providers/google/sheet/wrapper.py:175 | `int("\x1c5")` raises: U+001C is not white space to `int()`, although `str.isspace()` accepts it |
| `PyText.FormatIntHasNoPoint` | src/pyfreeleh/providers/google/sheet/wrapper.py:172 | `str(n)` has no `.`, so it takes the integer branch |
| `PyText.IsPointFloat` | src/pyfreeleh/providers/google/sheet/wrapper.py:173 | whether `float(f)` accepts a text with a decimal point; no contract of its own, described by `PointFloatOfDigits`, `PointFloatOfNumerals` and `PointFloatRefusesForeignCharacter` |
| `PyText.PointFloatOfDigits` | src/pyfreeleh/providers/google/sheet/wrapper.py:173 | `float()` accepts digits, a point, digits |
| `PyText.PointFloatOfNumerals` | src/pyfreeleh/providers/google/sheet/wrapper.py:173 | `float()` accepts `str(a) + "." + str(b)` |
| `PyText.PointFloatRefusesForeignCharacter` | src/pyfreeleh/providers/google/sheet/wrapper.py:173 | `float()` refuses a text holding a character that no decimal literal has |
| `UpdateResults.UpdateRowsResultOf` | src/pyfreeleh/providers/google/sheet/wrapper.py:83-89 | the result exists exactly when the range parses and the counts and `updatedData` are present; it carries the parsed range and the service's counts unchanged; `updated_values` is `[]` when `updatedData` has no `values`, otherwise those values |
| `UpdateResults.InsertRowsResultOf` | src/pyfreeleh/providers/google/sheet/wrapper.py:60-66 | the range comes from `updates.updatedData.range`; a missing `updatedData` raises first, then a range that does not parse, then a missing count; with all of those present, a response without `values` raises instead of defaulting to `[]` |
| `UpdateResults.BatchUpdateRowsResults` | src/pyfreeleh/providers/google/sheet/wrapper.py:113-125 | one result per service response, in response order, each equal to what `update_rows` builds from that response; otherwise the error of the first response that cannot be converted |

## Left out

- Remote calls are not modelled: `create_spreadsheet`, `create_sheet`, `delete_sheet`, the append/update/batchUpdate/batchClear requests, and `clear`. These are network I/O through the Google API client.
- `query` is not modelled beyond its call to `_convert_query_result`. Its HTTP GET, the bearer header built from the credentials, and `raise_for_status` are network I/O. The model starts from the response text.
- `json.loads` is a parameter. It is a foreign library, and the model takes its output as given. The `KeyError` from a missing `table`, `cols` or `rows` key is folded into `loads` returning None.
- `A1Range.from_notation` and `str(A1Range)` are not modelled. They live in a module that is not part of this model. `from_notation` is an uninterpreted parameter.
- `float(f)` is not converted to a number. The model decides only whether `float()` accepts `f`, and keeps `f` as the value's text. Floating-point numerics are out of scope. The forms `inf` and `nan` cannot reach this branch, because they contain no `.`.
- `int()` and `float()` are modelled on ASCII digits only. Python also accepts other Unicode decimal digits.
- PyText.ParseInt: does not model the limit on integer text length that CPython 3.11 and later (and the 3.7.14+ security releases) apply by default. `int()` refuses a text of more than 4300 digits. The limit is configurable, and 0 disables it. The model accepts any length.
- PyText.ParseIntFormatInt: holds for every `n` only without that limit. With the limit, `str(n)` itself raises for an `n` of more than 4300 digits.
- The order of keys in a row dictionary is not modelled. A `Record` is a map. Python dictionaries compare equal whatever their key order.
- A raw `v` that is a JSON array or object is not modelled. The service sends scalars in `v`.
- The lookups `col["id"]`, `col["type"]` and `row["c"]` are assumed to succeed. Their `KeyError` is not modelled.
- The lookups `resp["responses"]` (in `batch_update_rows`) and `resp["updates"]` (in `_insert_rows`) are assumed to succeed. So are the lookups of `updatedRange` and of `updatedData.range`. The KeyErrors for the three counts and for `updatedData` (in `update_rows` and `batch_update_rows`) and for `values` (in `_insert_rows`) are modelled.
- `BuildRecord` is a separate method only to keep each proof small. In the source, this loop is nested inside `_convert_query_result`.
- `GoogleSheetSession` is not modelled. It only forwards calls to the wrapper. Its `_ensure` reads an attribute that is never set and swallows the resulting exception.
- `GoogleSheetScratchpad` is not modelled. It performs I/O against a sheet cell. As written it cannot work: `_book_scratchpad_cell` returns nothing, so `__init__` stores None. `execute` and `close` also use `_wrapper` and `_spreadsheet_id`, which are never set.
- `src/pyfreeleh/base.py` is not modelled. It holds only abstract `Codec`/`KV` stubs and two exception classes.
- The row store and query builder that `tests/integration/test_gsheet_row_store.py` exercises (`pyfreeleh.row`) are not part of this model.
