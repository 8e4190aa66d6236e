/** Decoded JSON values, the dynamic `any` that node configurations and run inputs carry. */
module Json {
  datatype Value =
    | Null
    | Bool(flag: bool)
    | Number(number: real)
    | Str(text: string)
    | Arr(items: seq<Value>)
    | Obj(fields: map<string, Value>)
}
