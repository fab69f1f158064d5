/** The untyped values the YAML decoder hands to the tool. Only the
    string-keyed mapping is ever looked inside; every other value is opaque
    resource contents and is passed to the writer unchanged. */
module Values {

  datatype Value =
    | Mapping(entries: seq<(string, Value)>)      // map[string]interface{}
    | KeyedMapping(pairs: seq<(Value, Value)>)    // a mapping with a non-string key: a different Go type
    | Sequence(items: seq<Value>)
    | Scalar(text: string)                        // strings, numbers, booleans and null

  /** The entries of one Go map, in whatever order `range` happens to visit them. */
  type Entries = seq<(string, Value)>

  /** A Go map never holds the same key twice. */
  predicate KeysDistinct(es: Entries) {
    forall i, j :: 0 <= i < j < |es| ==> es[i].0 != es[j].0
  }
}
