/** Records, text and the small wrappers shared by the map and reduce task executors. */
module Records {

  /** A byte. Go strings are byte sequences, so keys, values, file names and file
      contents are all modelled as sequences of bytes. */
  type Byte = bv8
  type Text = seq<Byte>

  /** One key/value pair, as mapF emits it and as the record codec stores it. */
  datatype KeyValue = KeyValue(key: Text, value: Text)

  datatype Option<+T> = None | Some(value: T)

  datatype Result<+T, +E> = Success(value: T) | Failure(error: E)

  /** The distinct keys of a record sequence. */
  function KeysOf(rs: seq<KeyValue>): set<Text> {
    set i | 0 <= i < |rs| :: rs[i].key
  }
}
