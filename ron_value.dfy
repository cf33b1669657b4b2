/** The tree the RON library hands to the adapter after parsing (`ron::Value`),
    together with the one library conversion the adapter calls on it. */
module Ron {
  import opened Wrappers
  import opened Primitives

  /** `ron::Number`. */
  datatype Number = Float(f: F64) | Integer(i: i64)

  /** `ron::Value`. A RON map is given as the sequence of its entries in the
      order the library iterates them. */
  datatype Value =
    | Option(inner: Option<Value>)
    | Unit
    | Bool(b: bool)
    | Number(n: Number)
    | Char(c: char)
    | String(s: string)
    | Seq(items: seq<Value>)
    | Map(entries: seq<(Value, Value)>)

  /** `value.into_rust::<String>()`: deserializes a RON value as a Rust
      `String`. The library's value deserializer hands a string to the
      visitor as a string and a character as a character, and Rust's
      `String` visitor accepts exactly those two; every other kind of
      value (including `Some("...")`) is reported as an invalid type. */
  function IntoString(key: Value): Result<string> {
    match key
    case String(s) => Ok(s)
    case Char(c) => Ok([c])
    case _ => Err
  }

  /** Every map key anywhere in `v`, at every depth, converts to a string.
      Keys are converted as values of their own and are not descended into. */
  predicate KeysConvert(v: Value) {
    match v
    case Option(Some(x)) => KeysConvert(x)
    case Seq(items) => forall i :: 0 <= i < |items| ==> KeysConvert(items[i])
    case Map(entries) =>
      forall i :: 0 <= i < |entries| ==> EntryKeysConvert(entries[i])
    case _ => true
  }

  /** The key of `entry` converts, and so do all keys inside its value. */
  predicate EntryKeysConvert(entry: (Value, Value)) {
    IntoString(entry.0).Ok? && KeysConvert(entry.1)
  }

  /** `v` with every enclosing `Some` removed. */
  function StripSome(v: Value): (r: Value)
    ensures !(r.Option? && r.inner.Some?)
  {
    match v
    case Option(Some(x)) => StripSome(x)
    case _ => v
  }
}
