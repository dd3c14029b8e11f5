/** JSON values as the screens and the campaign service exchange them. */
module JsonValue {
  /** A JSON value; numbers are kept whole, as no modelled operation computes with them. */
  datatype Json =
    | JNull
    | JBool(b: bool)
    | JNum(n: int)
    | JStr(s: string)
    | JArr(items: seq<Json>)
    | JObj(fields: map<string, Json>)
}
