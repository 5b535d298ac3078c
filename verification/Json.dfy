/** JSON documents with unique member names. */
module Json {
  // `finite` is false for the NaN and infinity literals that Python accepts.
  datatype Number = Int(n: int) | Float(value: real, finite: bool)

  datatype Value =
    | Null
    | Bool(b: bool)
    | Num(number: Number)
    | Str(s: string)
    | Arr(items: seq<Value>)
    | Obj(fields: map<string, Value>)
}
