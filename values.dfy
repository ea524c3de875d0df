/** Values shared by every part of the model: an optional value, the values a
    YAML document header can hold, and the timestamps parsed from a header's
    `date` entry. */
module Values {

  datatype Option<+T> = None | Some(value: T)

  /** A value as the YAML loader hands it over. A mapping keeps its entries by
      key; the order of its keys is not part of the model. Floats, dates and
      other YAML scalars are carried as `Other`, with the text Python's str()
      gives them. */
  datatype Value =
    | Null
    | Bool(b: bool)
    | Int(i: int)
    | Str(s: string)
    | List(items: seq<Value>)
    | Dict(entries: map<string, Value>)
    | Other(text: string)

  /** A parsed point in time, represented by the text its isoformat() gives. */
  datatype Timestamp = Timestamp(iso: string)

  /** Python's `d.get(key, default)` on a mapping. */
  function Get(d: map<string, Value>, key: string, default: Value): Value
  {
    if key in d then d[key] else default
  }
}
