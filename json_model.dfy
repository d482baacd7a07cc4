/**
  The scalar JSON values that appear in the spreadsheet service's responses, as
  `json.loads` hands them to the wrapper. Parsing JSON text itself is not modelled:
  the wrapper's callers of `json.loads` receive a function from text to these values.
*/
module JsonModel {

  /** A JSON scalar. A number keeps the literal it was written as: no arithmetic is done on it. */
  datatype Json =
    | JNull
    | JBool(b: bool)
    | JNumber(literal: string)
    | JString(s: string)
}
