/** JSON values. Encoding to text and decoding it are treated as inverse on these. */
module Json {
  datatype Json =
    | Null | Bool(value: bool) | Num(number: real) | Str(text: string) | Arr(items: seq<Json>) | Obj(fields: Object)

  type Object = map<string, Json>
}
