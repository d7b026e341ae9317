/** Values produced by `JSON.parse`, with the two JavaScript behaviours the import code
    depends on: truthiness (`x && ...`, `x || default`) and reading a property
    (`value.name`), which gives `undefined` for a missing property or a non-object. */
module JsonValues {

  datatype Json =
    | JNull
    | JBool(b: bool)
    | JNum(n: real)
    | JStr(s: string)
    | JArr(items: seq<Json>)
    | JObj(fields: map<string, Json>)

  /** JavaScript truthiness of a parsed value: `null`, `false`, `0` and `""` are falsy;
      every array and object, even an empty one, is truthy. */
  predicate Truthy(v: Json) {
    match v
    case JNull => false
    case JBool(b) => b
    case JNum(n) => n != 0.0
    case JStr(s) => s != []
    case JArr(_) => true
    case JObj(_) => true
  }

  /** `v.name` for a value that is not `null`. A missing property reads as `undefined`;
      `undefined` and `null` behave alike wherever the modelled code reads a property
      (both falsy, neither a string nor an array), so both are `JNull` here. */
  function Member(v: Json, name: string): (r: Json)
    ensures r != JNull ==> v.JObj? && name in v.fields && v.fields[name] == r
    ensures v.JObj? && name in v.fields ==> r == v.fields[name]
  {
    if v.JObj? && name in v.fields then v.fields[name] else JNull
  }

  /** `v || fallback`. */
  function OrElse(v: Json, fallback: Json): (r: Json)
    ensures Truthy(v) ==> r == v
    ensures !Truthy(v) ==> r == fallback
  {
    if Truthy(v) then v else fallback
  }
}
