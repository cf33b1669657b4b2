/** The configuration library's own dynamically typed value tree: only the
    two fields the RON adapter fills in, the origin and the kind. */
module ConfigValue {
  import opened Wrappers
  import opened Primitives

  /** `ValueKind`. */
  datatype ValueKind =
    | Nil
    | Boolean(b: bool)
    | Integer(i: i64)
    | Float(f: F64)
    | String(s: string)
    | Array(items: seq<Value>)
    | Table(entries: map<string, Value>)

  /** `Value`: a node and the identifier of the source that produced it. */
  datatype Value = Value(origin: Option<string>, kind: ValueKind)

  /** Every node of `v`, at every depth, carries exactly the origin `uri`. */
  predicate OriginEverywhere(v: Value, uri: Option<string>) {
    && v.origin == uri
    && match v.kind
       case Array(items) => forall i :: 0 <= i < |items| ==> OriginEverywhere(items[i], uri)
       case Table(entries) => forall k :: k in entries ==> OriginEverywhere(entries[k], uri)
       case _ => true
  }
}
