/**
  The decoder of the spreadsheet query endpoint's answer (`GoogleSheetWrapper._convert_query_result`
  and `GoogleSheetWrapper._parse_cell` in wrapper.py).

  The service answers a query with text of the form `freeleh({...})`. The decoder cuts out
  the JSON object between the first `{` and the last `}`, parses it, and turns the table it
  holds (`table.cols`, `table.rows`) into one dictionary per row, keyed by column id, each
  cell decoded according to its column's declared type.

  `json.loads`, together with the lookups `resp["table"]["cols"]` and `resp["table"]["rows"]`,
  is a parameter `loads` of the model: `loads(payload)` is None exactly where Python raises
  while parsing the payload or looking up those keys.
*/
module QueryDecoder {
  import opened Wrappers
  import opened JsonModel
  import opened PyText

  /**
    One entry of a row's `c` list: JSON null, or an object that may hold a raw value `v`
    and a display-formatted text `f`, and `otherKeys` further keys (such as `p`).
  */
  datatype Cell =
    | NullCell
    | CellObject(v: Option<Json>, f: Option<string>, otherKeys: nat)

  /** A column of the answer: its `id` and its declared `type`. */
  datatype Column = Column(id: string, typ: string)

  datatype Row = Row(c: seq<Cell>)

  datatype Table = Table(cols: seq<Column>, rows: seq<Row>)

  /** A decoded cell: Python's None, a JSON value passed through, an `int`, or a `float` kept as its text. */
  datatype Value =
    | VNone
    | VBool(b: bool)
    | VNumber(literal: string)
    | VStr(s: string)
    | VInt(i: int)
    | VFloat(text: string)

  /** One decoded row: a dictionary from column id to value. */
  type Record = map<string, Value>

  /** The exceptions the decoder raises. */
  datatype Error =
    | MissingBrace(brace: char)       // ValueError from str.index / str.rindex
    | MalformedPayload                // json.loads fails, or the payload has no table
    | MissingKey(key: string)         // KeyError on cell["v"] or cell["f"]
    | ColumnOutOfRange(index: nat)    // IndexError on cols[cell_idx]
    | InvalidInt(text: string)        // ValueError from int(cell["f"])
    | InvalidFloat(text: string)      // ValueError from float(cell["f"])
    | UnsupportedType(typ: string)    // ValueError("cell type ... is not supported")

  const DateTypes: set<string> := {"date", "datetime", "timeofday"}

  const SupportedTypes: set<string> := {"boolean", "number", "string"} + DateTypes

  /** The Python object `json.loads` yields for a JSON scalar. */
  function FromJson(j: Json): Value
  {
    match j
    case JNull => VNone
    case JBool(b) => VBool(b)
    case JNumber(literal) => VNumber(literal)
    case JString(s) => VStr(s)
  }

  /** Python's truth value of a cell: JSON null and the empty object are false. */
  predicate IsEmpty(cell: Cell)
  {
    cell.NullCell? || (cell.v.None? && cell.f.None? && cell.otherKeys == 0)
  }

  // ---------------------------------------------------------------------------
  // The envelope

  /**
    `response[response.index("{") : response.rindex("}") + 1]`. When the last `}` comes
    before the first `{`, the Python slice is empty.
  */
  function Envelope(response: string): (r: Result<string, Error>)
    ensures r.Ok? <==> '{' in response && '}' in response
    ensures r.Err? ==> r.error == MissingBrace(if '{' !in response then '{' else '}')
    ensures r.Ok? && r.value != [] ==> r.value[0] == '{' && r.value[|r.value| - 1] == '}'
  {
    match IndexOf(response, '{')
    case None => Err(MissingBrace('{'))
    case Some(start) =>
      match RIndexOf(response, '}')
      case None => Err(MissingBrace('}'))
      case Some(end) => Ok(if start <= end then response[start..end + 1] else [])
  }

  /** The payload is the text from the first `{` to the last `}`, both included. */
  lemma EnvelopeIsOuterBraces(response: string, first: nat, last: nat)
    requires first < |response| && response[first] == '{' && '{' !in response[..first]
    requires last < |response| && response[last] == '}' && '}' !in response[last + 1..]
    ensures Envelope(response) == Ok(if first <= last then response[first..last + 1] else [])
  {
  }

  /** `freeleh({...});` and the like: text without `{` before the object and without `}` after it is cut away. */
  lemma EnvelopeOfWrapped(prefix: string, body: string, suffix: string)
    requires '{' !in prefix && '}' !in suffix
    requires |body| >= 2 && body[0] == '{' && body[|body| - 1] == '}'
    ensures Envelope(prefix + body + suffix) == Ok(body)
  {
    var s := prefix + body + suffix;
    var first, last := |prefix|, |prefix| + |body| - 1;
    assert s[..first] == prefix;
    assert s[last + 1..] == suffix;
    assert s[first..last + 1] == body;
    EnvelopeIsOuterBraces(s, first, last);
  }

  // ---------------------------------------------------------------------------
  // One cell

  /**
    `_parse_cell(cell, col)`. An empty cell or a null `v` gives None whatever the column
    type; the type is inspected only after that, and a type outside the six known ones is
    refused, naming the type. The per-type rules are the lemmas below.
  */
  function ParseCell(cell: Cell, col: Column): (r: Result<Value, Error>)
    ensures IsEmpty(cell) || cell.v == Some(JNull) ==> r == Ok(VNone)
    ensures !IsEmpty(cell) && cell.v.None? ==> r == Err(MissingKey("v"))
    ensures (r.Err? && r.error.UnsupportedType?) <==>
      (!IsEmpty(cell) && cell.v.Some? && cell.v.value != JNull && col.typ !in SupportedTypes)
    ensures r.Err? && r.error.UnsupportedType? ==> r.error.typ == col.typ
    ensures r.Ok? && r.value.VNone? ==> IsEmpty(cell) || cell.v == Some(JNull)
  {
    if IsEmpty(cell) || cell.v == Some(JNull) then Ok(VNone)
    else if cell.v.None? then Err(MissingKey("v"))
    else if col.typ == "boolean" then Ok(FromJson(cell.v.value))
    else if col.typ == "number" then
      if cell.f.None? then Err(MissingKey("f"))
      else if '.' in cell.f.value then
        if IsPointFloat(cell.f.value) then Ok(VFloat(cell.f.value)) else Err(InvalidFloat(cell.f.value))
      else
        match ParseInt(cell.f.value)
        case Some(n) => Ok(VInt(n))
        case None => Err(InvalidInt(cell.f.value))
    else if col.typ == "string" then Ok(FromJson(cell.v.value))
    else if col.typ in DateTypes then
      if cell.f.None? then Err(MissingKey("f")) else Ok(VStr(cell.f.value))
    else Err(UnsupportedType(col.typ))
  }

  /** A cell that holds a value: present, with a `v` key that is not null. */
  predicate HasValue(cell: Cell)
  {
    cell.CellObject? && cell.v.Some? && cell.v.value != JNull
  }

  /** Boolean and string columns return the raw `v` unchanged. */
  lemma RawValueColumns(cell: Cell, col: Column)
    requires HasValue(cell) && (col.typ == "boolean" || col.typ == "string")
    ensures ParseCell(cell, col) == Ok(FromJson(cell.v.value))
  {
  }

  /** Date, datetime and timeofday columns return the formatted text `f` verbatim (KeyError without it). */
  lemma DateColumnsKeepFormatted(cell: Cell, col: Column)
    requires HasValue(cell) && col.typ in DateTypes
    ensures ParseCell(cell, col) == if cell.f.Some? then Ok(VStr(cell.f.value)) else Err(MissingKey("f"))
  {
    assert col.typ != "boolean" && col.typ != "number" && col.typ != "string";
  }

  /**
    A number column decodes `f`: with a decimal point it must be a float literal and is
    kept as that text, otherwise it must be an integer literal and gives that integer.
  */
  lemma NumberColumnRule(cell: Cell, col: Column)
    requires HasValue(cell) && col.typ == "number"
    ensures cell.f.None? ==> ParseCell(cell, col) == Err(MissingKey("f"))
    ensures cell.f.Some? && '.' in cell.f.value ==>
      ParseCell(cell, col) == if IsPointFloat(cell.f.value) then Ok(VFloat(cell.f.value)) else Err(InvalidFloat(cell.f.value))
    ensures cell.f.Some? && '.' !in cell.f.value ==>
      ParseCell(cell, col) ==
        if ParseInt(cell.f.value).Some? then Ok(VInt(ParseInt(cell.f.value).value)) else Err(InvalidInt(cell.f.value))
  {
  }

  /** A number column never looks at `v` beyond its null check: cells with the same `f` decode alike. */
  lemma NumberDependsOnlyOnFormatted(a: Cell, b: Cell, col: Column)
    requires col.typ == "number"
    requires HasValue(a) && HasValue(b)
    requires a.f == b.f
    ensures ParseCell(a, col) == ParseCell(b, col)
  {
  }

  /** A number cell whose `f` is the numeral `str(n)` decodes to the integer `n`, e.g. "42" to 42. */
  lemma NumberDecodesNumeral(cell: Cell, col: Column, n: int)
    requires col.typ == "number"
    requires HasValue(cell)
    requires cell.f == Some(FormatInt(n))
    ensures ParseCell(cell, col) == Ok(VInt(n))
  {
    ParseIntFormatInt(n);
    FormatIntHasNoPoint(n);
    NumberColumnRule(cell, col);
  }

  /** A number cell whose `f` has no decimal point but another foreign character, as "1,000", raises. */
  lemma NumberRefusesForeignCharacter(cell: Cell, col: Column, k: nat)
    requires col.typ == "number"
    requires HasValue(cell)
    requires cell.f.Some? && '.' !in cell.f.value
    requires k < |Strip(cell.f.value)|
    requires var c := Strip(cell.f.value)[k]; !IsDigit(c) && !IsSign(c) && c != '_'
    ensures ParseCell(cell, col) == Err(InvalidInt(cell.f.value))
  {
    ParseIntRefusesForeignCharacter(cell.f.value, k);
    NumberColumnRule(cell, col);
  }

  /** A number cell whose `f` is digits, a point, digits (as "3.14") takes the float branch and keeps `f` as the float's text. */
  lemma NumberDecodesPointDigits(cell: Cell, col: Column, x: string, y: string)
    requires col.typ == "number"
    requires HasValue(cell)
    requires x != [] && forall k :: 0 <= k < |x| ==> IsDigit(x[k])
    requires y != [] && forall k :: 0 <= k < |y| ==> IsDigit(y[k])
    requires cell.f == Some(x + "." + y)
    ensures ParseCell(cell, col) == Ok(VFloat(x + "." + y))
  {
    var f := x + "." + y;
    assert '.' in f by {
      assert f[|x|] == '.';
    }
    assert IsPointFloat(f) by {
      PointFloatOfDigits(x, y);
    }
    NumberColumnRule(cell, col);
  }

  /** A number cell whose `f` has a decimal point and a character no float literal has, as "1,000.5", raises. */
  lemma NumberRefusesForeignPointText(cell: Cell, col: Column, k: nat)
    requires col.typ == "number"
    requires HasValue(cell)
    requires cell.f.Some? && '.' in cell.f.value
    requires k < |Strip(cell.f.value)| && IsForeign(Strip(cell.f.value)[k])
    ensures ParseCell(cell, col) == Err(InvalidFloat(cell.f.value))
  {
    PointFloatRefusesForeignCharacter(cell.f.value, k);
    NumberColumnRule(cell, col);
  }

  /** A number cell showing "42" decodes to 42, whatever its raw value. */
  lemma NumberExampleFortyTwo(col: Column, raw: Json)
    requires col.typ == "number" && raw != JNull
    ensures ParseCell(CellObject(Some(raw), Some("42"), 0), col) == Ok(VInt(42))
  {
    assert FormatInt(42) == "42";
    NumberDecodesNumeral(CellObject(Some(raw), Some("42"), 0), col, 42);
  }

  /** A number cell showing "1,000" raises: `int()` does not accept a thousands separator. */
  lemma NumberExampleThousands(col: Column, raw: Json)
    requires col.typ == "number" && raw != JNull
    ensures ParseCell(CellObject(Some(raw), Some("1,000"), 0), col) == Err(InvalidInt("1,000"))
  {
    ParseIntRefusesThousands();
    NumberColumnRule(CellObject(Some(raw), Some("1,000"), 0), col);
  }

  // ---------------------------------------------------------------------------
  // One row

  /** What cell `i` of a row yields when it is not empty: `cols[i]` must exist, then the cell is parsed against it. */
  function DecodeCellAt(cols: seq<Column>, cell: Cell, i: nat): Result<Value, Error>
  {
    if i < |cols| then ParseCell(cell, cols[i]) else Err(ColumnOutOfRange(i))
  }

  /**
    The dictionary the inner loop builds for one row: cells are visited in order, an empty
    cell is skipped, any other cell `i` sets key `cols[i].id`; the first failure is raised.
  */
  function DecodeRow(cols: seq<Column>, cells: seq<Cell>): Result<Record, Error>
    decreases |cells|
  {
    if cells == [] then Ok(map[])
    else
      var i := |cells| - 1;
      match DecodeRow(cols, cells[..i])
      case Err(e) => Err(e)
      case Ok(record) =>
        if IsEmpty(cells[i]) then Ok(record)
        else if i >= |cols| then Err(ColumnOutOfRange(i))
        else
          match ParseCell(cells[i], cols[i])
          case Err(e) => Err(e)
          case Ok(x) => Ok(record[cols[i].id := x])
  }

  /** A row decodes exactly when every non-empty cell has a column and parses; empty cells past the last column do no harm. */
  lemma {:induction false} DecodeRowSucceeds(cols: seq<Column>, cells: seq<Cell>)
    ensures DecodeRow(cols, cells).Ok? <==>
      forall i :: 0 <= i < |cells| && !IsEmpty(cells[i]) ==> DecodeCellAt(cols, cells[i], i).Ok?
  {
    if cells != [] {
      var n := |cells| - 1;
      DecodeRowSucceeds(cols, cells[..n]);
      assert forall i :: 0 <= i < n ==> cells[..n][i] == cells[i];
    }
  }

  /** A failing row raises the error of its first failing non-empty cell. */
  lemma {:induction false} DecodeRowFailure(cols: seq<Column>, cells: seq<Cell>)
    requires DecodeRow(cols, cells).Err?
    ensures exists i ::
      && 0 <= i < |cells| && !IsEmpty(cells[i])
      && DecodeCellAt(cols, cells[i], i) == Err(DecodeRow(cols, cells).error)
      && forall j :: 0 <= j < i && !IsEmpty(cells[j]) ==> DecodeCellAt(cols, cells[j], j).Ok?
  {
    var n := |cells| - 1;
    assert forall i :: 0 <= i < n ==> cells[..n][i] == cells[i];
    if DecodeRow(cols, cells[..n]).Err? {
      DecodeRowFailure(cols, cells[..n]);
    } else {
      DecodeRowSucceeds(cols, cells[..n]);
      assert DecodeCellAt(cols, cells[n], n) == Err(DecodeRow(cols, cells).error);
    }
  }

  /** The keys of a decoded row are exactly the ids of the columns whose cell is not empty. */
  lemma {:induction false} DecodeRowKeys(cols: seq<Column>, cells: seq<Cell>)
    requires DecodeRow(cols, cells).Ok?
    ensures forall k :: k in DecodeRow(cols, cells).value <==>
      exists i :: 0 <= i < |cells| && i < |cols| && !IsEmpty(cells[i]) && cols[i].id == k
  {
    if cells != [] {
      var n := |cells| - 1;
      DecodeRowKeys(cols, cells[..n]);
      assert forall i :: 0 <= i < n ==> cells[..n][i] == cells[i];
      forall k
        ensures k in DecodeRow(cols, cells).value <==>
          exists i :: 0 <= i < |cells| && i < |cols| && !IsEmpty(cells[i]) && cols[i].id == k
      {
        if k in DecodeRow(cols, cells).value && !(k in DecodeRow(cols, cells[..n]).value) {
          assert n < |cols| && !IsEmpty(cells[n]) && cols[n].id == k;
        }
      }
    }
  }

  /**
    The value under a key is the decoding of the last non-empty cell with that column id
    (a later column with the same id overwrites an earlier one).
  */
  lemma {:induction false} DecodeRowEntry(cols: seq<Column>, cells: seq<Cell>, i: nat)
    requires DecodeRow(cols, cells).Ok?
    requires i < |cells| && i < |cols| && !IsEmpty(cells[i])
    requires forall j :: i < j < |cells| && j < |cols| && !IsEmpty(cells[j]) ==> cols[j].id != cols[i].id
    ensures cols[i].id in DecodeRow(cols, cells).value
    ensures Ok(DecodeRow(cols, cells).value[cols[i].id]) == ParseCell(cells[i], cols[i])
  {
    var n := |cells| - 1;
    if i < n {
      assert forall j :: 0 <= j < n ==> cells[..n][j] == cells[j];
      DecodeRowEntry(cols, cells[..n], i);
    }
  }

  /** A present cell whose `v` is null puts None under its column's id (when no later cell has that id). */
  lemma NullCellEntry(cols: seq<Column>, cells: seq<Cell>, i: nat)
    requires DecodeRow(cols, cells).Ok?
    requires i < |cells| && i < |cols| && cells[i].CellObject? && cells[i].v == Some(JNull)
    requires forall j :: i < j < |cells| && j < |cols| && !IsEmpty(cells[j]) ==> cols[j].id != cols[i].id
    ensures cols[i].id in DecodeRow(cols, cells).value
    ensures DecodeRow(cols, cells).value[cols[i].id] == VNone
  {
    DecodeRowEntry(cols, cells, i);
  }

  /** Once a prefix of the row has raised, the whole row raises the same error. */
  lemma {:induction false} DecodeRowStopsAtError(cols: seq<Column>, cells: seq<Cell>, m: nat)
    requires m <= |cells| && DecodeRow(cols, cells[..m]).Err?
    ensures DecodeRow(cols, cells) == DecodeRow(cols, cells[..m])
  {
    if m < |cells| {
      var n := |cells| - 1;
      assert cells[..n][..m] == cells[..m];
      DecodeRowStopsAtError(cols, cells[..n], m);
    } else {
      assert cells[..m] == cells;
    }
  }

  // ---------------------------------------------------------------------------
  // The table

  /** The list the outer loop builds: one dictionary per row, in row order; the first failure is raised. */
  function DecodeRows(cols: seq<Column>, rows: seq<Row>): Result<seq<Record>, Error>
    decreases |rows|
  {
    if rows == [] then Ok([])
    else
      var n := |rows| - 1;
      match DecodeRows(cols, rows[..n])
      case Err(e) => Err(e)
      case Ok(done) =>
        match DecodeRow(cols, rows[n].c)
        case Err(e) => Err(e)
        case Ok(record) => Ok(done + [record])
  }

  /** One dictionary per row, in the same order, and success exactly when every row decodes; no rows give []. */
  lemma {:induction false} DecodeRowsPerRow(cols: seq<Column>, rows: seq<Row>)
    ensures DecodeRows(cols, rows).Ok? <==> forall i :: 0 <= i < |rows| ==> DecodeRow(cols, rows[i].c).Ok?
    ensures DecodeRows(cols, rows).Ok? ==>
      && |DecodeRows(cols, rows).value| == |rows|
      && forall i :: 0 <= i < |rows| ==> DecodeRow(cols, rows[i].c) == Ok(DecodeRows(cols, rows).value[i])
    ensures rows == [] ==> DecodeRows(cols, rows) == Ok([])
  {
    if rows != [] {
      var n := |rows| - 1;
      DecodeRowsPerRow(cols, rows[..n]);
      assert forall i :: 0 <= i < n ==> rows[..n][i] == rows[i];
    }
  }

  /** A failing table raises the error of its first failing row. */
  lemma {:induction false} DecodeRowsFailure(cols: seq<Column>, rows: seq<Row>)
    requires DecodeRows(cols, rows).Err?
    ensures exists i ::
      && 0 <= i < |rows|
      && DecodeRow(cols, rows[i].c) == Err(DecodeRows(cols, rows).error)
      && forall j :: 0 <= j < i ==> DecodeRow(cols, rows[j].c).Ok?
  {
    var n := |rows| - 1;
    assert forall i :: 0 <= i < n ==> rows[..n][i] == rows[i];
    if DecodeRows(cols, rows[..n]).Err? {
      DecodeRowsFailure(cols, rows[..n]);
    } else {
      DecodeRowsPerRow(cols, rows[..n]);
    }
  }

  /** Once a prefix of the rows has raised, the whole table raises the same error. */
  lemma {:induction false} DecodeRowsStopsAtError(cols: seq<Column>, rows: seq<Row>, m: nat)
    requires m <= |rows| && DecodeRows(cols, rows[..m]).Err?
    ensures DecodeRows(cols, rows) == DecodeRows(cols, rows[..m])
  {
    if m < |rows| {
      var n := |rows| - 1;
      assert rows[..n][..m] == rows[..m];
      DecodeRowsStopsAtError(cols, rows[..n], m);
    } else {
      assert rows[..m] == rows;
    }
  }

  // ---------------------------------------------------------------------------
  // The whole answer

  /** What `_convert_query_result(response)` returns or raises, given what `json.loads` makes of the payload. */
  function QueryResult(response: string, loads: string -> Option<Table>): Result<seq<Record>, Error>
  {
    match Envelope(response)
    case Err(e) => Err(e)
    case Ok(payload) =>
      match loads(payload)
      case None => Err(MalformedPayload)
      case Some(table) => DecodeRows(table.cols, table.rows)
  }

  /** A wrapped answer decodes the table its object holds; a table without rows gives the empty list. */
  lemma QueryResultOfWrapped(prefix: string, body: string, suffix: string, loads: string -> Option<Table>)
    requires '{' !in prefix && '}' !in suffix
    requires |body| >= 2 && body[0] == '{' && body[|body| - 1] == '}'
    requires loads(body).Some?
    ensures QueryResult(prefix + body + suffix, loads) == DecodeRows(loads(body).value.cols, loads(body).value.rows)
    ensures loads(body).value.rows == [] ==> QueryResult(prefix + body + suffix, loads) == Ok([])
  {
    EnvelopeOfWrapped(prefix, body, suffix);
  }

  /**
    The inner loop of `_convert_query_result` (wrapper.py lines 153-159): fill one row's
    dictionary cell by cell, skipping empty cells.
  */
  method BuildRecord(cols: seq<Column>, cells: seq<Cell>) returns (r: Result<Record, Error>)
    ensures r == DecodeRow(cols, cells)
  {
    var record: Record := map[];
    for i := 0 to |cells|
      invariant DecodeRow(cols, cells[..i]) == Ok(record)
    {
      assert cells[..i + 1][..i] == cells[..i];
      var cell := cells[i];
      if IsEmpty(cell) {
        continue;
      }
      if i >= |cols| {
        DecodeRowStopsAtError(cols, cells, i + 1);
        return Err(ColumnOutOfRange(i));
      }
      var value := ParseCell(cell, cols[i]);
      if value.Err? {
        DecodeRowStopsAtError(cols, cells, i + 1);
        return Err(value.error);
      }
      record := record[cols[i].id := value.value];
    }
    assert cells[..|cells|] == cells;
    return Ok(record);
  }

  /**
    `_convert_query_result`: cut out the payload, parse it, then build the list of row
    dictionaries, one per row in order.
  */
  method ConvertQueryResult(response: string, loads: string -> Option<Table>) returns (r: Result<seq<Record>, Error>)
    ensures r == QueryResult(response, loads)
  {
    var start := IndexOf(response, '{');
    if start.None? {
      return Err(MissingBrace('{'));
    }
    var end := RIndexOf(response, '}');
    if end.None? {
      return Err(MissingBrace('}'));
    }
    var payload := if start.value <= end.value then response[start.value..end.value + 1] else [];
    assert Envelope(response) == Ok(payload);
    var parsed := loads(payload);
    if parsed.None? {
      return Err(MalformedPayload);
    }
    var cols, rows := parsed.value.cols, parsed.value.rows;
    assert QueryResult(response, loads) == DecodeRows(cols, rows);
    var results: seq<Record> := [];
    for n := 0 to |rows|
      invariant DecodeRows(cols, rows[..n]) == Ok(results)
    {
      assert rows[..n + 1][..n] == rows[..n];
      var record := BuildRecord(cols, rows[n].c);
      if record.Err? {
        DecodeRowsStopsAtError(cols, rows, n + 1);
        return Err(record.error);
      }
      results := results + [record.value];
    }
    assert rows[..|rows|] == rows;
    return Ok(results);
  }
}
