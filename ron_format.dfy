/** The RON format adapter: translates an already parsed RON tree into the
    configuration value tree, tagging every node with the document's origin,
    and keeps the root's entries when the root is a table. */
module RonFormat {
  import opened Wrappers
  import opened ConfigValue
  import Ron

  /** `parse`. `document` is the outcome of the RON library's text parser,
      whose failure is passed on as it is. A root that converts to a table
      yields its entries; any other root yields an empty map, not an error. */
  function Parse(uri: Option<string>, document: Result<Ron.Value>): (r: Result<map<string, Value>>)
    ensures r.Ok? <==> document.Ok? && Ron.KeysConvert(document.value)
    ensures r.Ok? ==> forall k :: k in r.value ==> OriginEverywhere(r.value[k], uri)
  {
    var root :- document;
    var value :- FromRonValue(uri, root);
    match value.kind
    case Table(entries) => Ok(entries)
    case _ => Ok(map[])
  }

  /** `from_ron_value`. The only way it can fail is a map key, at any depth,
      that does not convert to a string; on success every node of the result
      carries `uri`. */
  function FromRonValue(uri: Option<string>, value: Ron.Value): (r: Result<Value>)
    ensures r.Ok? <==> Ron.KeysConvert(value)
    ensures r.Ok? ==> OriginEverywhere(r.value, uri)
  {
    var kind :- match value
      case Option(Some(inner)) =>
        var converted :- FromRonValue(uri, inner);
        Ok(converted.kind)
      case Option(None) => Ok(Nil)
      case Unit => Ok(Nil)
      case Bool(b) => Ok(Boolean(b))
      case Number(Float(f)) => Ok(ValueKind.Float(f))
      case Number(Integer(i)) => Ok(ValueKind.Integer(i))
      case Char(c) => Ok(ValueKind.String([c]))
      case String(s) => Ok(ValueKind.String(s))
      case Seq(items) =>
        var elements :- FromSeq(uri, items);
        Ok(Array(elements))
      case Map(entries) =>
        var table :- FromMap(uri, entries);
        Ok(Table(table));
    Ok(Value(uri, kind))
  }

  /** The sequence arm's `map(..).collect::<Result<Vec<_>, _>>()`: converts
      the elements in order and fails as soon as one of them fails. */
  function FromSeq(uri: Option<string>, items: seq<Ron.Value>): (r: Result<seq<Value>>)
    ensures r.Ok? <==> forall i :: 0 <= i < |items| ==> FromRonValue(uri, items[i]).Ok?
    ensures r.Ok? ==> |r.value| == |items|
    ensures r.Ok? ==> forall i :: 0 <= i < |items| ==> FromRonValue(uri, items[i]) == Ok(r.value[i])
  {
    if items == [] then Ok([])
    else
      var head :- FromRonValue(uri, items[0]);
      var tail :- FromSeq(uri, items[1..]);
      Ok([head] + tail)
  }

  /** The map arm's `map(..).collect::<Result<HashMap<_, _>, _>>()`: each
      entry's key is converted to a string and its value converted, and the
      pairs are inserted into the table from first to last, so the fold over
      `entries` is the fold over its prefix followed by the last entry. */
  function FromMap(uri: Option<string>, entries: seq<(Ron.Value, Ron.Value)>): (r: Result<map<string, Value>>)
    ensures r.Ok? <==> forall i :: 0 <= i < |entries| ==> EntryConverts(uri, entries[i])
    ensures r.Ok? ==> forall k :: k in r.value ==> OriginEverywhere(r.value[k], uri)
  {
    if entries == [] then Ok(map[])
    else
      var table :- FromMap(uri, entries[..|entries| - 1]);
      var entry := entries[|entries| - 1];
      assert entry in entries && entry.1 < entry;
      var key :- Ron.IntoString(entry.0);
      var value :- FromRonValue(uri, entry.1);
      Ok(table[key := value])
  }

  /** Both halves of one map entry convert. */
  predicate EntryConverts(uri: Option<string>, entry: (Ron.Value, Ron.Value)) {
    Ron.IntoString(entry.0).Ok? && FromRonValue(uri, entry.1).Ok?
  }
}
