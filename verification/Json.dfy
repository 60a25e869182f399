/** JSON values as the documents hold them, and what a column family stores. */
module Json {
  import opened Bytes
  import KeyCodec

  datatype Option<+T> = None | Some(value: T)

  /** A double is given by its bit pattern; an object is a finite map, iterated by ascending key. */
  datatype Json =
    | Null
    | Boolean(flag: bool)
    | Integer(number: int)
    | Float(bits: KeyCodec.word)
    | Text(chars: Str)
    | Array(items: seq<Json>)
    | Object(fields: Fields)

  type Fields = map<Str, Json>

  /** A document: the id it is stored under, and its data, which is a JSON object. */
  datatype Doc = Doc(id: Str, data: Fields)

  /** A stored value: a packed document, or the raw id text of an index entry. Packing stands for
      `to_msgpack` / `from_msgpack`, of which only that the second inverts the first is used. */
  datatype Value = Packed(doc: Doc) | Raw(text: Str)

  type Family = map<Str, Value>

  type Families = map<Str, Family>

  /** How an operation ends; `Exception` is leaving by a C++ exception. */
  datatype Status = OK | NotFound | InvalidArgument | NotSupported | Corruption | IOError | InternalError | Exception
}
