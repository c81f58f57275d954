/** Shared value types of the metadata extractor: optional values, results
    that carry the reason of a failure, and the metadata record itself. */
module Records {

  datatype Option<+T> = None | Some(value: T)

  datatype Result<+T, +E> = Success(value: T) | Failure(error: E)

  /** A metadata value: a single string (overwrite attributes, name,
      filename, category, subcategory, description) or an ordered list of
      strings (append attributes). */
  datatype Val = Str(text: string) | List(items: seq<string>)

  /** The per-file record, a dictionary from attribute name to value. */
  type Metadata = map<string, Val>
}
