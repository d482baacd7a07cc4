/**
  How the wrapper turns the spreadsheet service's write responses into result records:
  `update_rows` and `batch_update_rows` build `UpdateRowsResult`s, `_insert_rows` builds an
  `InsertRowsResult` (wrapper.py).

  The response is the service's JSON, already parsed. A count the service leaves out
  is None; reading it raises KeyError. `A1Range.from_notation` is a parameter
  `fromNotation` over an arbitrary range type `R`: None where it raises.
*/
module UpdateResults {
  import opened Wrappers
  import opened JsonModel

  /** The `updatedData` object: the range written and, when present, the values the service echoes. */
  datatype UpdatedData = UpdatedData(range: string, values: Option<seq<seq<Json>>>)

  /** One update response of the service (`UpdateValuesResponse`). */
  datatype UpdateResponse = UpdateResponse(
    updatedRange: string,
    updatedRows: Option<int>,
    updatedColumns: Option<int>,
    updatedCells: Option<int>,
    updatedData: Option<UpdatedData>)

  /** The append call's response, whose `updates` field is an update response. */
  datatype AppendResponse = AppendResponse(updates: UpdateResponse)

  datatype UpdateRowsResult<R> = UpdateRowsResult(
    updatedRange: R,
    updatedRows: int,
    updatedColumns: int,
    updatedCells: int,
    updatedValues: seq<seq<Json>>)

  datatype InsertRowsResult<R> = InsertRowsResult(
    updatedRange: R,
    updatedRows: int,
    updatedColumns: int,
    updatedCells: int,
    insertedValues: seq<seq<Json>>)

  datatype Error =
    | BadRange(notation: string)   // A1Range.from_notation raises
    | MissingKey(key: string)      // KeyError on the response

  /** Every count of the response is present. */
  predicate HasCounts(resp: UpdateResponse)
  {
    resp.updatedRows.Some? && resp.updatedColumns.Some? && resp.updatedCells.Some?
  }

  /**
    The `UpdateRowsResult(...)` of `update_rows`, built field by field in the order the
    source evaluates them: the range is parsed first, then the counts are read, then
    `updatedData.get("values", [])`.
  */
  function UpdateRowsResultOf<R>(resp: UpdateResponse, fromNotation: string -> Option<R>): (r: Result<UpdateRowsResult<R>, Error>)
    ensures r.Ok? <==> fromNotation(resp.updatedRange).Some? && HasCounts(resp) && resp.updatedData.Some?
    ensures fromNotation(resp.updatedRange).None? ==> r == Err(BadRange(resp.updatedRange))
    ensures r.Ok? ==>
      && r.value.updatedRange == fromNotation(resp.updatedRange).value
      && Some(r.value.updatedRows) == resp.updatedRows
      && Some(r.value.updatedColumns) == resp.updatedColumns
      && Some(r.value.updatedCells) == resp.updatedCells
    ensures r.Ok? && resp.updatedData.value.values.None? ==> r.value.updatedValues == []
    ensures r.Ok? && resp.updatedData.value.values.Some? ==> r.value.updatedValues == resp.updatedData.value.values.value
  {
    match fromNotation(resp.updatedRange)
    case None => Err(BadRange(resp.updatedRange))
    case Some(range) =>
      if resp.updatedRows.None? then Err(MissingKey("updatedRows"))
      else if resp.updatedColumns.None? then Err(MissingKey("updatedColumns"))
      else if resp.updatedCells.None? then Err(MissingKey("updatedCells"))
      else if resp.updatedData.None? then Err(MissingKey("updatedData"))
      else
        Ok(UpdateRowsResult(
          range, resp.updatedRows.value, resp.updatedColumns.value, resp.updatedCells.value,
          resp.updatedData.value.values.GetOr([])))
  }

  /**
    The `InsertRowsResult(...)` of `_insert_rows`. Unlike an update, the range is taken from
    `updates.updatedData.range`, and the values are read with `["values"]`: a response that
    echoes no values raises instead of giving [].
  */
  function InsertRowsResultOf<R>(resp: AppendResponse, fromNotation: string -> Option<R>): (r: Result<InsertRowsResult<R>, Error>)
    ensures r.Ok? <==>
      && resp.updates.updatedData.Some?
      && fromNotation(resp.updates.updatedData.value.range).Some?
      && HasCounts(resp.updates)
      && resp.updates.updatedData.value.values.Some?
    ensures resp.updates.updatedData.None? ==> r == Err(MissingKey("updatedData"))
    ensures resp.updates.updatedData.Some? && fromNotation(resp.updates.updatedData.value.range).None? ==>
      r == Err(BadRange(resp.updates.updatedData.value.range))
    ensures
      && resp.updates.updatedData.Some?
      && fromNotation(resp.updates.updatedData.value.range).Some?
      && HasCounts(resp.updates)
      && resp.updates.updatedData.value.values.None?
      ==> r == Err(MissingKey("values"))
    ensures r.Ok? ==>
      && r.value.updatedRange == fromNotation(resp.updates.updatedData.value.range).value
      && Some(r.value.updatedRows) == resp.updates.updatedRows
      && Some(r.value.updatedColumns) == resp.updates.updatedColumns
      && Some(r.value.updatedCells) == resp.updates.updatedCells
      && Some(r.value.insertedValues) == resp.updates.updatedData.value.values
  {
    var u := resp.updates;
    if u.updatedData.None? then Err(MissingKey("updatedData"))
    else
      match fromNotation(u.updatedData.value.range)
      case None => Err(BadRange(u.updatedData.value.range))
      case Some(range) =>
        if u.updatedRows.None? then Err(MissingKey("updatedRows"))
        else if u.updatedColumns.None? then Err(MissingKey("updatedColumns"))
        else if u.updatedCells.None? then Err(MissingKey("updatedCells"))
        else if u.updatedData.value.values.None? then Err(MissingKey("values"))
        else
          Ok(InsertRowsResult(
            range, u.updatedRows.value, u.updatedColumns.value, u.updatedCells.value,
            u.updatedData.value.values.value))
  }

  /**
    The loop of `batch_update_rows` over `resp["responses"]`: one `UpdateRowsResult` per
    response, in response order, each built as `update_rows` builds its own; the first
    response that cannot be converted raises.
  */
  method BatchUpdateRowsResults<R>(responses: seq<UpdateResponse>, fromNotation: string -> Option<R>)
    returns (r: Result<seq<UpdateRowsResult<R>>, Error>)
    ensures r.Ok? <==> forall i :: 0 <= i < |responses| ==> UpdateRowsResultOf(responses[i], fromNotation).Ok?
    ensures r.Ok? ==>
      && |r.value| == |responses|
      && forall i :: 0 <= i < |responses| ==> UpdateRowsResultOf(responses[i], fromNotation) == Ok(r.value[i])
    ensures r.Err? ==> exists i ::
      && 0 <= i < |responses|
      && UpdateRowsResultOf(responses[i], fromNotation) == Err(r.error)
      && forall j :: 0 <= j < i ==> UpdateRowsResultOf(responses[j], fromNotation).Ok?
  {
    var results: seq<UpdateRowsResult<R>> := [];
    for i := 0 to |responses|
      invariant |results| == i
      invariant forall j :: 0 <= j < i ==> UpdateRowsResultOf(responses[j], fromNotation) == Ok(results[j])
    {
      var result := UpdateRowsResultOf(responses[i], fromNotation);
      if result.Err? {
        return Err(result.error);
      }
      results := results + [result.value];
    }
    return Ok(results);
  }
}
