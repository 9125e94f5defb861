/** A JSON document as `json.loads` returns it: `None`, booleans, numbers,
    strings, lists and dictionaries. Numbers are exact reals. */
module JsonValues {

  datatype Json =
    | JNull
    | JBool(b: bool)
    | JNum(num: real)
    | JStr(str: string)
    | JArr(items: seq<Json>)
    | JObj(fields: map<string, Json>)
}
